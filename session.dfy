/**
 * The session of the random text feed: a corpus of entries that uploads
 * extend, and a feed of at most ten entries drawn from the corpus, newest
 * first.
 *
 * The random choices of the two feed buttons are indices that the caller
 * supplies.
 */
module Session {
  import opened Chunker
  import opened Extraction

  /** The feed keeps at most this many entries. */
  const FeedCapacity: nat := 10

  /** How many entries the batch button draws, at most. */
  const BatchSize: nat := 5

  /** The first `n` entries of `s`, or all of them when there are fewer: `s[:n]`. */
  function Truncated(s: seq<Entry>, n: nat): (r: seq<Entry>)
    ensures |r| == Min(n, |s|)
  {
    s[..Min(n, |s|)]
  }

  function Reversed(s: seq<Entry>): (r: seq<Entry>)
    ensures |r| == |s|
    decreases |s|
  {
    if |s| == 0 then [] else [s[|s| - 1]] + Reversed(s[..|s| - 1])
  }

  /** The corpus entries at the drawn positions, in the order they are drawn. */
  function Drawn(texts: seq<Entry>, picks: seq<nat>): (r: seq<Entry>)
    requires forall i :: 0 <= i < |picks| ==> picks[i] < |texts|
    ensures |r| == |picks|
    ensures forall k :: 0 <= k < |picks| ==> r[k] == texts[picks[k]]
    decreases |picks|
  {
    if |picks| == 0 then []
    else
      var n := |picks| - 1;
      assert forall i :: 0 <= i < n ==> picks[..n][i] == picks[i];
      Drawn(texts, picks[..n]) + [texts[picks[n]]]
  }

  /** The feed after `e` is put in front of it and it is cut back to capacity. */
  function Pushed(feed: seq<Entry>, e: Entry): (r: seq<Entry>)
    ensures |r| == Min(FeedCapacity, |feed| + 1) && r[0] == e
  {
    Truncated([e] + feed, FeedCapacity)
  }

  /** The feed after the entries `drawn` are put in front one by one and it is cut back once. */
  function PushedBatch(feed: seq<Entry>, drawn: seq<Entry>): (r: seq<Entry>)
    ensures |r| == Min(FeedCapacity, |feed| + |drawn|)
  {
    Truncated(Reversed(drawn) + feed, FeedCapacity)
  }

  /** The feed after the entries `drawn` are added one at a time, each as a single add. */
  function PushedEach(feed: seq<Entry>, drawn: seq<Entry>): seq<Entry>
    decreases |drawn|
  {
    if |drawn| == 0 then feed else Pushed(PushedEach(feed, drawn[..|drawn| - 1]), drawn[|drawn| - 1])
  }

  // ---------------------------------------------------------------------
  // Properties of the feed updates
  // ---------------------------------------------------------------------

  lemma {:induction false} ReversedAt(s: seq<Entry>)
    ensures forall k :: 0 <= k < |s| ==> Reversed(s)[k] == s[|s| - 1 - k]
    decreases |s|
  {
    if |s| > 0 {
      var n := |s| - 1;
      ReversedAt(s[..n]);
      forall k | 0 < k < |s| ensures Reversed(s)[k] == s[n - k] {
        assert Reversed(s)[k] == Reversed(s[..n])[k - 1];
      }
    }
  }

  /**
   * A single add: the feed grows by one up to capacity, the new entry is at
   * its head and the old entries follow in their old order.
   */
  lemma PushedShape(feed: seq<Entry>, e: Entry)
    ensures var r := Pushed(feed, e);
      && |r| == Min(FeedCapacity, |feed| + 1)
      && r[0] == e
      && r[1..] == feed[..|r| - 1]
  {
  }

  /**
   * A batch add of `drawn`: the feed grows by `|drawn|` up to capacity, the
   * last entry drawn is at its head, the drawn entries stand in reverse
   * drawing order, and the old entries follow in their old order.
   */
  lemma PushedBatchShape(feed: seq<Entry>, drawn: seq<Entry>)
    ensures var r := PushedBatch(feed, drawn);
      && |r| == Min(FeedCapacity, |feed| + |drawn|)
      && (forall k :: 0 <= k < |r| && k < |drawn| ==> r[k] == drawn[|drawn| - 1 - k])
      && (forall k :: |drawn| <= k < |r| ==> r[k] == feed[k - |drawn|])
  {
    ReversedAt(drawn);
    var s := Reversed(drawn) + feed;
    assert forall k :: |drawn| <= k < |s| ==> s[k] == feed[k - |drawn|];
  }

  /** Cutting back after every insertion gives the same feed as cutting back once. */
  lemma TruncatedPush(s: seq<Entry>, e: Entry, n: nat)
    requires n >= 1
    ensures Truncated([e] + Truncated(s, n), n) == Truncated([e] + s, n)
  {
    var t := Truncated(s, n);
    assert ([e] + t)[..Min(n, |t| + 1)] == [e] + s[..Min(n, |t| + 1) - 1];
  }

  /**
   * On a feed within capacity, a batch add is the same as that many single
   * adds of the drawn entries in drawing order.
   */
  lemma {:induction false} BatchIsRepeatedSingles(feed: seq<Entry>, drawn: seq<Entry>)
    requires |feed| <= FeedCapacity
    ensures PushedBatch(feed, drawn) == PushedEach(feed, drawn)
    decreases |drawn|
  {
    if |drawn| == 0 {
      assert Reversed(drawn) + feed == feed;
      assert feed[..|feed|] == feed;
    } else {
      var n := |drawn| - 1;
      var d := drawn[n];
      BatchIsRepeatedSingles(feed, drawn[..n]);
      assert Reversed(drawn) == [d] + Reversed(drawn[..n]);
      assert Reversed(drawn) + feed == [d] + (Reversed(drawn[..n]) + feed);
      TruncatedPush(Reversed(drawn[..n]) + feed, d, FeedCapacity);
    }
  }

  /** Every entry of the feed after a single add was in the old feed or is the new entry. */
  lemma PushedMembers(feed: seq<Entry>, e: Entry)
    ensures forall x :: x in Pushed(feed, e) ==> x == e || x in feed
  {
    PushedShape(feed, e);
  }

  lemma PushedBatchMembers(feed: seq<Entry>, drawn: seq<Entry>)
    ensures forall x :: x in PushedBatch(feed, drawn) ==> x in drawn || x in feed
  {
    PushedBatchShape(feed, drawn);
    var r := PushedBatch(feed, drawn);
    forall x | x in r ensures x in drawn || x in feed {
      var k :| 0 <= k < |r| && r[k] == x;
      if k < |drawn| {
        assert x == drawn[|drawn| - 1 - k];
      } else {
        assert x == feed[k - |drawn|];
      }
    }
  }

  /** Every entry drawn from the corpus is a corpus entry. */
  lemma {:induction false} DrawnMembers(texts: seq<Entry>, picks: seq<nat>)
    requires forall i :: 0 <= i < |picks| ==> picks[i] < |texts|
    ensures forall x :: x in Drawn(texts, picks) ==> x in texts
    decreases |picks|
  {
    if |picks| > 0 {
      var n := |picks| - 1;
      assert forall i :: 0 <= i < n ==> picks[..n][i] == picks[i];
      DrawnMembers(texts, picks[..n]);
    }
  }

  lemma AppendAssociative(a: seq<Entry>, b: seq<Entry>, c: seq<Entry>)
    ensures (a + b) + c == a + (b + c)
  {
  }

  /** A file that extracts, within the prefix of files that extract, does not end it. */
  lemma PrefixContinues(files: seq<UploadedFile>, i: nat)
    requires i < |files| && i <= ExtractedPrefix(files) && Extracts(files[i])
    ensures i + 1 <= ExtractedPrefix(files)
  {
  }

  /**
   * One turn of the upload loop: the next file extracts to `added`, so
   * appending `added` to the corpus extends the batch by one file, keeps
   * every old corpus entry and keeps the corpus short.
   */
  lemma UploadStep(base: seq<Entry>, files: seq<UploadedFile>, i: nat, texts: seq<Entry>, added: seq<Entry>)
    requires i < |files| && FileEntries(files[i]) == Some(added)
    requires texts == base + BatchEntries(files[..i]) && ShortEntries(texts, MaxLen)
    ensures texts + added == base + BatchEntries(files[..i + 1])
    ensures ShortEntries(texts + added, MaxLen)
    ensures forall x :: x in texts ==> x in texts + added
  {
    FileEntriesShape(files[i]);
    BatchEntriesSnoc(files, i);
    AppendAssociative(base, BatchEntries(files[..i]), added);
    ShortAppend(texts, added, MaxLen);
  }

  // ---------------------------------------------------------------------
  // The session state
  // ---------------------------------------------------------------------

  class State {
    /** The corpus: every entry extracted so far, in upload order. */
    var texts: seq<Entry>
    /** The feed, newest entry first. */
    var feed: seq<Entry>

    /**
     * The feed holds at most `FeedCapacity` entries, all of them from the
     * corpus, and no corpus entry is longer than `MaxLen`.
     */
    ghost predicate Valid()
      reads this
    {
      && |feed| <= FeedCapacity
      && (forall x :: x in feed ==> x in texts)
      && ShortEntries(texts, MaxLen)
    }

    /** A new session: no corpus and an empty feed. */
    constructor ()
      ensures Valid() && texts == [] && feed == []
    {
      texts := [];
      feed := [];
    }

    /**
     * The upload loop: each file is extracted by its type and its entries
     * are appended to the corpus, in upload order. The first file that fails
     * to extract stops the loop; the files before it stay appended and its
     * index is returned.
     */
    method ProcessUploads(files: seq<UploadedFile>) returns (failed: Option<nat>)
      requires Valid()
      modifies this`texts
      ensures Valid()
      ensures texts == old(texts) + BatchEntries(files[..ExtractedPrefix(files)])
      ensures failed == if ExtractedPrefix(files) < |files| then Some(ExtractedPrefix(files)) else None
    {
      var i := 0;
      while i < |files|
        invariant i <= ExtractedPrefix(files)
        invariant texts == old(texts) + BatchEntries(files[..i])
        invariant Valid()
      {
        var extracted := ExtractFile(files[i]);
        if extracted.None? {
          assert i == ExtractedPrefix(files);
          return Some(i);
        }
        var sentences := extracted.value;
        PrefixContinues(files, i);
        UploadStep(old(texts), files, i, texts, sentences);
        texts := texts + sentences;
        i := i + 1;
      }
      assert i == ExtractedPrefix(files);
      return None;
    }

    /** The single-add button: one corpus entry, the one at `k`, goes to the head of the feed. */
    method AddRandomEntry(k: nat)
      requires Valid()
      requires |texts| > 0 ==> k < |texts|
      modifies this`feed
      ensures Valid()
      ensures feed == if |texts| == 0 then old(feed) else Pushed(old(feed), texts[k])
    {
      if |texts| > 0 {
        var entry := texts[k];
        feed := [entry] + feed;
        feed := feed[..Min(FeedCapacity, |feed|)];
        PushedMembers(old(feed), entry);
      }
    }

    /**
     * The batch button: `Min(BatchSize, |texts|)` corpus entries, at the
     * positions `picks`, go one by one to the head of the feed, which is then
     * cut back to capacity once.
     */
    method AddRandomBatch(picks: seq<nat>)
      requires Valid()
      requires |texts| > 0 ==> |picks| == Min(BatchSize, |texts|)
      requires forall i :: 0 <= i < |picks| ==> picks[i] < |texts|
      modifies this`feed
      ensures Valid()
      ensures feed == if |texts| == 0 then old(feed) else PushedBatch(old(feed), Drawn(texts, picks))
      ensures |texts| > 0 ==> |feed| == Min(FeedCapacity, |old(feed)| + Min(BatchSize, |texts|))
    {
      if |texts| > 0 {
        for i := 0 to |picks|
          invariant feed == Reversed(Drawn(texts, picks[..i])) + old(feed)
        {
          assert picks[..i + 1][..i] == picks[..i] && picks[..i + 1][i] == picks[i];
          feed := [texts[picks[i]]] + feed;
        }
        assert picks[..|picks|] == picks;
        feed := feed[..Min(FeedCapacity, |feed|)];
        var drawn := Drawn(texts, picks);
        PushedBatchShape(old(feed), drawn);
        PushedBatchMembers(old(feed), drawn);
        DrawnMembers(texts, picks);
      }
    }
  }
}
