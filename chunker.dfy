/**
 * The sentence chunker of the random text feed: `split_into_sentences`.
 *
 * Text is cut into candidate sentences at every whitespace run that follows
 * a `.`, `!` or `?`; each candidate is trimmed, blank ones are dropped, a
 * candidate that fits in `maxLen` becomes one chunk and a longer one is cut
 * into fixed-width slices that are trimmed one by one.
 */
module Chunker {

  /** The chunk width every caller of the chunker uses. */
  const MaxLen: nat := 280

  function Min(a: int, b: int): int {
    if a <= b then a else b
  }

  /**
   * The characters Python treats as whitespace, both in the regular
   * expression class `\s` and in `str.strip()`.
   */
  const Whitespace: seq<char> := [
    '\U{0009}', '\U{000A}', '\U{000B}', '\U{000C}', '\U{000D}',
    '\U{001C}', '\U{001D}', '\U{001E}', '\U{001F}', '\U{0020}',
    '\U{0085}', '\U{00A0}', '\U{1680}',
    '\U{2000}', '\U{2001}', '\U{2002}', '\U{2003}', '\U{2004}', '\U{2005}',
    '\U{2006}', '\U{2007}', '\U{2008}', '\U{2009}', '\U{200A}',
    '\U{2028}', '\U{2029}', '\U{202F}', '\U{205F}', '\U{3000}'
  ]

  /** `c` occurs in `table`, looked up one entry at a time. */
  predicate Listed(c: char, table: seq<char>) {
    |table| > 0 && (table[0] == c || Listed(c, table[1..]))
  }

  predicate IsSpace(c: char) {
    Listed(c, Whitespace)
  }

  /** The sentence terminators of the character class `[.!?]`. */
  predicate IsTerminator(c: char) {
    c == '.' || c == '!' || c == '?'
  }

  lemma {:induction false} ListedIsIn(c: char, table: seq<char>)
    ensures Listed(c, table) <==> c in table
  {
    if |table| > 0 {
      ListedIsIn(c, table[1..]);
      assert table == [table[0]] + table[1..];
    }
  }

  /** An entry found at position `k` of the table is listed. */
  lemma {:induction false} ListedAt(c: char, table: seq<char>, k: nat)
    requires k < |table| && table[k] == c
    ensures Listed(c, table)
    decreases k
  {
    if k > 0 {
      assert table[1..][k - 1] == c;
      ListedAt(c, table[1..], k - 1);
    }
  }

  /** The ordinary space is whitespace. */
  lemma SpaceIsSpace()
    ensures IsSpace(' ')
  {
    ListedAt(' ', Whitespace, 9);
  }

  /** No printable ASCII character (a sentence terminator among them) is whitespace. */
  lemma PrintableNotSpace(c: char)
    requires ' ' < c < '\U{0085}'
    ensures !IsSpace(c)
  {
    ListedIsIn(c, Whitespace);
    WhitespaceCodes();
  }

  /** Every whitespace character is a control character, the space, or above U+0084. */
  lemma WhitespaceCodes()
    ensures forall k :: 0 <= k < |Whitespace| ==> Whitespace[k] <= ' ' || Whitespace[k] >= '\U{0085}'
  {
  }

  predicate AllSpace(s: string) {
    forall i :: 0 <= i < |s| ==> IsSpace(s[i])
  }

  /** The characters of `s` that are not whitespace, in order. */
  function Visible(s: string): string {
    if |s| == 0 then [] else (if IsSpace(s[0]) then [] else [s[0]]) + Visible(s[1..])
  }

  /** The strings of `ss` written one after the other. */
  function Concat(ss: seq<string>): string {
    if |ss| == 0 then [] else ss[0] + Concat(ss[1..])
  }

  // ---------------------------------------------------------------------
  // The split `re.split(r'(?<=[.!?])\s+', text)`
  // ---------------------------------------------------------------------

  /** Position `i` of `s` starts a whitespace run right after a terminator. */
  predicate BoundaryAt(s: string, i: int) {
    0 < i < |s| && IsTerminator(s[i - 1]) && IsSpace(s[i])
  }

  predicate NoBoundary(s: string) {
    forall i :: 0 < i < |s| ==> !BoundaryAt(s, i)
  }

  /** The first boundary at or after `from`, or `|s|` when there is none. */
  function NextBoundary(s: string, from: nat): (i: nat)
    requires from <= |s|
    ensures from <= i <= |s|
    ensures i < |s| ==> BoundaryAt(s, i)
    ensures forall j :: from <= j < i ==> !BoundaryAt(s, j)
    decreases |s| - from
  {
    if from == |s| || BoundaryAt(s, from) then from else NextBoundary(s, from + 1)
  }

  /** The end of the maximal whitespace run that starts at `i`: what `\s+` consumes. */
  function RunEnd(s: string, i: nat): (j: nat)
    requires i <= |s|
    ensures i <= j <= |s|
    ensures forall k :: i <= k < j ==> IsSpace(s[k])
    ensures j < |s| ==> !IsSpace(s[j])
    decreases |s| - i
  {
    if i == |s| || !IsSpace(s[i]) then i else RunEnd(s, i + 1)
  }

  /** The pieces `re.split` returns: the text between consumed separators. */
  function Candidates(s: string): (cs: seq<string>)
    ensures |cs| >= 1
    decreases |s|
  {
    var i := NextBoundary(s, 0);
    if i == |s| then [s] else [s[..i]] + Candidates(s[RunEnd(s, i)..])
  }

  /** The separators the split consumes, in order. */
  function Gaps(s: string): (gs: seq<string>)
    ensures |gs| + 1 == |Candidates(s)|
    decreases |s|
  {
    var i := NextBoundary(s, 0);
    if i == |s| then [] else [s[i..RunEnd(s, i)]] + Gaps(s[RunEnd(s, i)..])
  }

  /** Candidates `cs` with separator `gs[k]` written between `cs[k]` and `cs[k + 1]`. */
  function Weave(cs: seq<string>, gs: seq<string>): string
    requires |cs| == |gs| + 1
    decreases |gs|
  {
    if |gs| == 0 then cs[0] else cs[0] + gs[0] + Weave(cs[1..], gs[1..])
  }

  predicate IsGap(g: string) {
    |g| > 0 && AllSpace(g)
  }

  /**
   * A split of a text at exactly the maximal whitespace runs after a
   * terminator: every separator is a non-empty whitespace run, every
   * candidate before a separator ends in a terminator, no candidate after a
   * separator starts with whitespace (the run is maximal), and no candidate
   * holds a boundary of its own.
   */
  predicate WellSplit(cs: seq<string>, gs: seq<string>) {
    && |cs| == |gs| + 1
    && (forall k :: 0 <= k < |gs| ==> IsGap(gs[k]))
    && (forall k :: 0 <= k < |gs| ==> |cs[k]| > 0 && IsTerminator(cs[k][|cs[k]| - 1]))
    && (forall k :: 0 < k < |cs| ==> |cs[k]| == 0 || !IsSpace(cs[k][0]))
    && (forall k :: 0 <= k < |cs| ==> NoBoundary(cs[k]))
  }

  lemma WeaveStartsWithHead(cs: seq<string>, gs: seq<string>)
    requires |cs| == |gs| + 1
    ensures |cs[0]| <= |Weave(cs, gs)| && Weave(cs, gs)[..|cs[0]|] == cs[0]
  {
  }

  lemma WellSplitCons(c: string, g: string, cs: seq<string>, gs: seq<string>)
    requires WellSplit(cs, gs)
    requires IsGap(g) && |c| > 0 && IsTerminator(c[|c| - 1]) && NoBoundary(c)
    requires |cs[0]| == 0 || !IsSpace(cs[0][0])
    ensures WellSplit([c] + cs, [g] + gs)
  {
    var cs', gs' := [c] + cs, [g] + gs;
    forall k | 0 <= k < |gs'| ensures IsGap(gs'[k]) && |cs'[k]| > 0 && IsTerminator(cs'[k][|cs'[k]| - 1]) {
      if k > 0 { assert gs'[k] == gs[k - 1] && cs'[k] == cs[k - 1]; }
    }
    forall k | 0 < k < |cs'| ensures |cs'[k]| == 0 || !IsSpace(cs'[k][0]) {
      assert cs'[k] == cs[k - 1];
    }
    forall k | 0 <= k < |cs'| ensures NoBoundary(cs'[k]) {
      if k > 0 { assert cs'[k] == cs[k - 1]; }
    }
  }

  lemma WellSplitTail(cs: seq<string>, gs: seq<string>)
    requires WellSplit(cs, gs) && |gs| > 0
    ensures WellSplit(cs[1..], gs[1..])
  {
    var cs', gs' := cs[1..], gs[1..];
    forall k | 0 <= k < |gs'| ensures IsGap(gs'[k]) && |cs'[k]| > 0 && IsTerminator(cs'[k][|cs'[k]| - 1]) {
      assert gs'[k] == gs[k + 1] && cs'[k] == cs[k + 1];
    }
    forall k | 0 < k < |cs'| ensures |cs'[k]| == 0 || !IsSpace(cs'[k][0]) {
      assert cs'[k] == cs[k + 1];
    }
    forall k | 0 <= k < |cs'| ensures NoBoundary(cs'[k]) {
      assert cs'[k] == cs[k + 1];
    }
  }

  lemma SliceAllSpace(s: string, i: nat, j: nat)
    requires i <= j <= |s| && forall k :: i <= k < j ==> IsSpace(s[k])
    ensures AllSpace(s[i..j])
  {
    forall k | 0 <= k < j - i ensures IsSpace(s[i..j][k]) {
      assert s[i..j][k] == s[i + k];
    }
  }

  lemma PrefixNoBoundary(s: string, i: nat)
    requires i <= |s| && forall p :: 0 < p < i ==> !BoundaryAt(s, p)
    ensures NoBoundary(s[..i])
  {
    forall p | 0 < p < i ensures !BoundaryAt(s[..i], p) {
      assert !BoundaryAt(s, p);
      assert s[..i][p - 1] == s[p - 1] && s[..i][p] == s[p];
    }
  }

  /** The first candidate and separator of a text that has a boundary. */
  lemma SplitHead(s: string)
    requires NextBoundary(s, 0) < |s|
    ensures var i := NextBoundary(s, 0); var j := RunEnd(s, i);
      && i > 0 && IsTerminator(s[..i][i - 1]) && NoBoundary(s[..i]) && IsGap(s[i..j])
      && (j == |s| || !IsSpace(s[j]))
  {
    var i := NextBoundary(s, 0);
    assert BoundaryAt(s, i);
    var j := RunEnd(s, i);
    assert s[..i][i - 1] == s[i - 1];
    PrefixNoBoundary(s, i);
    SliceAllSpace(s, i, j);
  }

  /** The split is a well-formed split, and putting the separators back gives the text. */
  lemma {:induction false} CandidatesSplit(s: string)
    ensures WellSplit(Candidates(s), Gaps(s)) && Weave(Candidates(s), Gaps(s)) == s
    decreases |s|
  {
    var i := NextBoundary(s, 0);
    if i < |s| {
      var j := RunEnd(s, i);
      var c, g, rest := s[..i], s[i..j], s[j..];
      SplitHead(s);
      assert s == c + g + rest;
      CandidatesSplit(rest);
      var cs, gs := Candidates(rest), Gaps(rest);
      assert Candidates(s) == [c] + cs && Gaps(s) == [g] + gs;
      WeaveStartsWithHead(cs, gs);
      assert |cs[0]| > 0 ==> cs[0][0] == rest[0] == s[j];
      WellSplitCons(c, g, cs, gs);
    }
  }

  /** In `c + g + rest` the first boundary is the end of `c` and the run it starts is `g`. */
  lemma FirstBoundaryIsGap(c: string, g: string, rest: string)
    requires |c| > 0 && IsTerminator(c[|c| - 1]) && NoBoundary(c) && IsGap(g)
    requires |rest| == 0 || !IsSpace(rest[0])
    ensures NextBoundary(c + g + rest, 0) == |c|
    ensures RunEnd(c + g + rest, |c|) == |c| + |g|
  {
    var s := c + g + rest;
    var i := NextBoundary(s, 0);
    forall p | 0 <= p < |c| ensures !BoundaryAt(s, p) {
      assert BoundaryAt(s, p) ==> BoundaryAt(c, p);
    }
    assert s[|c| - 1] == c[|c| - 1] && s[|c|] == g[0];
    assert BoundaryAt(s, |c|);
    var j := RunEnd(s, |c|);
    forall k | |c| <= k < |c| + |g| ensures IsSpace(s[k]) {
      assert s[k] == g[k - |c|];
    }
    assert |c| + |g| < |s| ==> s[|c| + |g|] == rest[0];
  }

  lemma CandidatesCons(c: string, g: string, rest: string)
    requires |c| > 0 && IsTerminator(c[|c| - 1]) && NoBoundary(c) && IsGap(g)
    requires |rest| == 0 || !IsSpace(rest[0])
    ensures Candidates(c + g + rest) == [c] + Candidates(rest)
    ensures Gaps(c + g + rest) == [g] + Gaps(rest)
  {
    var s := c + g + rest;
    FirstBoundaryIsGap(c, g, rest);
    assert s[..|c|] == c && s[|c|..|c| + |g|] == g && s[|c| + |g|..] == rest;
  }

  /** What follows a separator in a well-formed split does not start with whitespace. */
  lemma {:induction false} AfterGap(cs: seq<string>, gs: seq<string>)
    requires WellSplit(cs, gs) && |gs| > 0
    ensures var rest := Weave(cs[1..], gs[1..]); |rest| == 0 || !IsSpace(rest[0])
  {
    WeaveStartsWithHead(cs[1..], gs[1..]);
    if |gs| > 1 {
      assert |cs[1]| > 0;
    }
  }

  /** Any well-formed split of a text is the one the chunker computes. */
  lemma {:induction false} CandidatesUnique(s: string, cs: seq<string>, gs: seq<string>)
    requires WellSplit(cs, gs) && Weave(cs, gs) == s
    ensures Candidates(s) == cs && Gaps(s) == gs
    decreases |gs|
  {
    if |gs| == 0 {
      assert s == cs[0];
      SingleCandidate(s);
    } else {
      var c, g := cs[0], gs[0];
      var rest := Weave(cs[1..], gs[1..]);
      assert s == c + g + rest;
      AfterGap(cs, gs);
      CandidatesCons(c, g, rest);
      WellSplitTail(cs, gs);
      CandidatesUnique(rest, cs[1..], gs[1..]);
      assert cs == [c] + cs[1..] && gs == [g] + gs[1..];
    }
  }

  // ---------------------------------------------------------------------
  // `str.strip()`
  // ---------------------------------------------------------------------

  /** `s` without its leading whitespace run. */
  function TrimStart(s: string): (t: string)
    ensures |t| <= |s|
    ensures |t| > 0 ==> !IsSpace(t[0])
    decreases |s|
  {
    if |s| > 0 && IsSpace(s[0]) then TrimStart(s[1..]) else s
  }

  /** `s` without its trailing whitespace run. */
  function TrimEnd(s: string): (t: string)
    ensures |t| <= |s|
    ensures |t| > 0 ==> !IsSpace(t[|t| - 1])
    decreases |s|
  {
    if |s| > 0 && IsSpace(s[|s| - 1]) then TrimEnd(s[..|s| - 1]) else s
  }

  /** `TrimStart` keeps a suffix of its argument. */
  lemma {:induction false} TrimStartSuffix(s: string)
    ensures TrimStart(s) == s[|s| - |TrimStart(s)|..]
    decreases |s|
  {
    if |s| > 0 && IsSpace(s[0]) {
      TrimStartSuffix(s[1..]);
      assert s[1..][|s| - 1 - |TrimStart(s)|..] == s[|s| - |TrimStart(s)|..];
    }
  }

  /** `TrimEnd` keeps a prefix of its argument. */
  lemma {:induction false} TrimEndPrefix(s: string)
    ensures TrimEnd(s) == s[..|TrimEnd(s)|]
    decreases |s|
  {
    if |s| > 0 && IsSpace(s[|s| - 1]) {
      TrimEndPrefix(s[..|s| - 1]);
      assert s[..|s| - 1][..|TrimEnd(s)|] == s[..|TrimEnd(s)|];
    }
  }

  /** What `TrimStart` removes is whitespace. */
  lemma {:induction false} TrimStartRemovesSpace(s: string)
    ensures AllSpace(s[..|s| - |TrimStart(s)|])
    decreases |s|
  {
    if |s| > 0 && IsSpace(s[0]) {
      TrimStartRemovesSpace(s[1..]);
      var n := |s| - |TrimStart(s)|;
      forall i | 0 <= i < n ensures IsSpace(s[..n][i]) {
        if i > 0 { assert s[..n][i] == s[1..][..n - 1][i - 1]; }
      }
    }
  }

  /** What `TrimEnd` removes is whitespace. */
  lemma {:induction false} TrimEndRemovesSpace(s: string)
    ensures AllSpace(s[|TrimEnd(s)|..])
    decreases |s|
  {
    if |s| > 0 && IsSpace(s[|s| - 1]) {
      var s' := s[..|s| - 1];
      TrimEndRemovesSpace(s');
      var n := |TrimEnd(s)|;
      forall i | 0 <= i < |s| - n ensures IsSpace(s[n..][i]) {
        if n + i < |s| - 1 { assert s[n..][i] == s'[n..][i]; }
      }
    }
  }

  lemma BlankTrimStart(s: string)
    requires AllSpace(s)
    ensures |TrimStart(s)| == 0
  {
  }

  lemma TrimStartBlank(s: string)
    requires AllSpace(TrimStart(s))
    ensures AllSpace(s)
  {
    TrimStartRemovesSpace(s);
    assert s[..|s| - |TrimStart(s)|] == s;
  }

  lemma TrimEndBlank(u: string)
    requires |TrimEnd(u)| == 0
    ensures AllSpace(u)
  {
    TrimEndRemovesSpace(u);
    assert u[0..] == u;
  }

  /** Python's `s.strip()`. */
  function Strip(s: string): (t: string)
    ensures |t| <= |s|
    ensures |t| > 0 ==> !IsSpace(t[0]) && !IsSpace(t[|t| - 1])
  {
    var u := TrimStart(s);
    TrimEndPrefix(u);
    TrimEnd(u)
  }

  /** Stripping leaves nothing exactly when the string is all whitespace. */
  lemma StripBlank(s: string)
    ensures |Strip(s)| == 0 <==> AllSpace(s)
  {
    if AllSpace(s) {
      BlankTrimStart(s);
    }
    if |Strip(s)| == 0 {
      TrimEndBlank(TrimStart(s));
      TrimStartBlank(s);
    }
  }

  // ---------------------------------------------------------------------
  // Chunks
  // ---------------------------------------------------------------------

  /** The raw slices `[s[i:i+m] for i in range(from, len(s), m)]`. */
  function Pieces(s: string, m: nat, from: nat): seq<string>
    requires m >= 1
    decreases |s| - from
  {
    if from >= |s| then [] else [s[from..Min(from + m, |s|)]] + Pieces(s, m, from + m)
  }

  /** Every string of `ps` trimmed, in order. */
  function StripAll(ps: seq<string>): (r: seq<string>)
    ensures |r| == |ps|
  {
    if |ps| == 0 then [] else [Strip(ps[0])] + StripAll(ps[1..])
  }

  /** `[s[i:i+m].strip() for i in range(0, len(s), m)]`. */
  function Slices(s: string, m: nat): seq<string>
    requires m >= 1
  {
    StripAll(Pieces(s, m, 0))
  }

  /** The chunks one candidate sentence contributes. */
  function SentenceChunks(sentence: string, m: nat): (r: seq<string>)
    requires m >= 1
    ensures |r| == 0 <==> |Strip(sentence)| == 0
  {
    var t := Strip(sentence);
    if |t| == 0 then [] else if |t| <= m then [t]
    else
      assert Pieces(t, m, 0)[0] == t[..m];
      Slices(t, m)
  }

  /** The chunks of a sequence of candidates, in candidate order. */
  function ChunksOf(cs: seq<string>, m: nat): seq<string>
    requires m >= 1
  {
    if |cs| == 0 then [] else SentenceChunks(cs[0], m) + ChunksOf(cs[1..], m)
  }

  /** What `split_into_sentences(text, m)` returns. */
  function Chunked(text: string, m: nat): (r: seq<string>)
    requires m >= 1
    ensures Bounded(r, m)
  {
    ChunksOfBounded(Candidates(text), m);
    ChunksOf(Candidates(text), m)
  }

  /** The inner loop: the trimmed fixed-width slices of a long candidate. */
  method SliceSentence(sent: string, maxLen: nat) returns (chunks: seq<string>)
    requires maxLen >= 1
    ensures chunks == Slices(sent, maxLen)
  {
    chunks := [];
    var i: nat := 0;
    while i < |sent|
      invariant chunks + StripAll(Pieces(sent, maxLen, i)) == Slices(sent, maxLen)
      decreases |sent| - i
    {
      var piece := sent[i..Min(i + maxLen, |sent|)];
      SlicesStep(sent, maxLen, i, chunks);
      chunks := chunks + [Strip(piece)];
      i := i + maxLen;
    }
    assert chunks + [] == chunks;
  }

  /** The body of the loop over candidates: the chunks one candidate adds. */
  method ChunkSentence(sentence: string, maxLen: nat) returns (chunks: seq<string>)
    requires maxLen >= 1
    ensures chunks == SentenceChunks(sentence, maxLen)
  {
    var sent := Strip(sentence);
    if |sent| == 0 {
      chunks := [];
    } else if |sent| <= maxLen {
      chunks := [sent];
    } else {
      chunks := SliceSentence(sent, maxLen);
    }
  }

  /** `split_into_sentences`: the candidates of the split, chunked one after the other. */
  method SplitIntoSentences(text: string, maxLen: nat) returns (chunks: seq<string>)
    requires maxLen >= 1
    ensures chunks == Chunked(text, maxLen)
  {
    var sentences := Candidates(text);
    chunks := [];
    for k := 0 to |sentences|
      invariant chunks == ChunksOf(sentences[..k], maxLen)
    {
      var added := ChunkSentence(sentences[k], maxLen);
      ChunksOfAppend(sentences[..k], [sentences[k]], maxLen);
      assert sentences[..k + 1] == sentences[..k] + [sentences[k]];
      assert ChunksOf([sentences[k]], maxLen) == added + [];
      chunks := chunks + added;
    }
    assert sentences[..|sentences|] == sentences;
  }

  // ---------------------------------------------------------------------
  // Properties of the chunks
  // ---------------------------------------------------------------------

  lemma {:induction false} ChunksOfAppend(a: seq<string>, b: seq<string>, m: nat)
    requires m >= 1
    ensures ChunksOf(a + b, m) == ChunksOf(a, m) + ChunksOf(b, m)
  {
    if |a| == 0 {
      assert a + b == b;
    } else {
      var x := SentenceChunks(a[0], m);
      assert (a + b)[0] == a[0] && (a + b)[1..] == a[1..] + b;
      ChunksOfAppend(a[1..], b, m);
      calc {
        ChunksOf(a + b, m);
        x + ChunksOf(a[1..] + b, m);
        x + (ChunksOf(a[1..], m) + ChunksOf(b, m));
        (x + ChunksOf(a[1..], m)) + ChunksOf(b, m);
        ChunksOf(a, m) + ChunksOf(b, m);
      }
    }
  }

  /** How many values `range(0, n, m)` yields. */
  function SliceCount(n: int, m: nat): nat
    requires m >= 1
    decreases n
  {
    if n <= 0 then 0 else 1 + SliceCount(n - m, m)
  }

  lemma MulStep(k: int, m: int)
    ensures (k + 1) * m == k * m + m
  {
  }

  lemma MulNonNegative(k: nat, m: nat)
    ensures k * m >= 0
  {
  }

  /** `SliceCount(n, m)` is `ceil(n / m)`. */
  lemma {:induction false} SliceCountIsCeiling(n: nat, m: nat)
    requires m >= 1
    ensures (SliceCount(n, m) - 1) * m < n <= SliceCount(n, m) * m
    decreases n
  {
    if n > m {
      SliceCountIsCeiling(n - m, m);
      var c := SliceCount(n - m, m);
      MulStep(c, m);
      MulStep(c - 1, m);
    }
  }

  /** One turn of the slicing loop: emitting the next slice keeps what remains to be emitted. */
  lemma SlicesStep(s: string, m: nat, i: nat, done: seq<string>)
    requires m >= 1 && i < |s|
    ensures done + StripAll(Pieces(s, m, i))
         == (done + [Strip(s[i..Min(i + m, |s|)])]) + StripAll(Pieces(s, m, i + m))
  {
    var piece, rest := s[i..Min(i + m, |s|)], Pieces(s, m, i + m);
    assert Pieces(s, m, i) == [piece] + rest;
    StripAllCons(piece, rest);
  }

  lemma StripAllCons(p: string, ps: seq<string>)
    ensures StripAll([p] + ps) == [Strip(p)] + StripAll(ps)
  {
    assert ([p] + ps)[1..] == ps;
  }

  lemma {:induction false} StripAllAt(ps: seq<string>, k: nat)
    requires k < |ps|
    ensures StripAll(ps)[k] == Strip(ps[k])
  {
    if k > 0 {
      StripAllAt(ps[1..], k - 1);
    }
  }

  lemma {:induction false} PiecesLength(s: string, m: nat, from: nat)
    requires m >= 1
    ensures |Pieces(s, m, from)| == SliceCount(|s| - from, m)
    decreases |s| - from
  {
    if from < |s| {
      PiecesLength(s, m, from + m);
    }
  }

  /** Piece `k` of `Pieces(s, m, from)` is the text starting `k` widths after `from`. */
  lemma {:induction false} PiecesAt(s: string, m: nat, from: nat, k: nat)
    requires m >= 1 && k < |Pieces(s, m, from)|
    ensures var p := from + k * m; p < |s| && Pieces(s, m, from)[k] == s[p..Min(p + m, |s|)]
    decreases k
  {
    if k > 0 {
      PiecesAt(s, m, from + m, k - 1);
      MulStep(k - 1, m);
    }
  }

  /** The pieces, written one after the other, are the text from `from` on. */
  lemma {:induction false} PiecesCover(s: string, m: nat, from: nat)
    requires m >= 1 && from <= |s|
    ensures Concat(Pieces(s, m, from)) == s[from..]
    decreases |s| - from
  {
    if from < |s| {
      var e := Min(from + m, |s|);
      var rest := Pieces(s, m, from + m);
      assert ([s[from..e]] + rest)[1..] == rest;
      if from + m < |s| {
        PiecesCover(s, m, from + m);
        assert s[from..] == s[from..e] + s[from + m..];
      } else {
        assert s[from..] == s[from..e] + [];
      }
    }
  }

  /** `Slices(s, m)` has `ceil(|s| / m)` elements. */
  lemma SliceNumber(s: string, m: nat)
    requires m >= 1
    ensures (|Slices(s, m)| - 1) * m < |s| <= |Slices(s, m)| * m
  {
    PiecesLength(s, m, 0);
    SliceCountIsCeiling(|s|, m);
  }

  /** Slice `k` is the trimmed `m` characters starting at `k * m`. */
  lemma SliceContent(s: string, m: nat, k: nat)
    requires m >= 1 && k < |Slices(s, m)|
    ensures k * m < |s| && Slices(s, m)[k] == Strip(s[k * m..Min(k * m + m, |s|)])
  {
    var ps := Pieces(s, m, 0);
    MulNonNegative(k, m);
    PiecesAt(s, m, 0, k);
    StripAllAt(ps, k);
    var piece := s[k * m..Min(k * m + m, |s|)];
    assert ps[k] == piece;
  }

  /** A trimmed candidate longer than `m`: its slices, their number and each one's content. */
  lemma LongSentence(sentence: string, m: nat)
    requires m >= 1 && |Strip(sentence)| > m
    ensures var s, r := Strip(sentence), SentenceChunks(sentence, m);
      && (|r| - 1) * m < |s| <= |r| * m
      && forall k :: 0 <= k < |r| ==> k * m < |s| && r[k] == Strip(s[k * m..Min(k * m + m, |s|)])
  {
    var s := Strip(sentence);
    assert SentenceChunks(sentence, m) == Slices(s, m);
    SliceNumber(s, m);
    forall k | 0 <= k < |Slices(s, m)|
      ensures k * m < |s| && Slices(s, m)[k] == Strip(s[k * m..Min(k * m + m, |s|)])
    {
      SliceContent(s, m, k);
    }
  }

  /** Every string of `ss` has at most `m` characters. */
  predicate Bounded(ss: seq<string>, m: nat) {
    forall k :: 0 <= k < |ss| ==> |ss[k]| <= m
  }

  lemma BoundedAppend(a: seq<string>, b: seq<string>, m: nat)
    requires Bounded(a, m) && Bounded(b, m)
    ensures Bounded(a + b, m)
  {
    forall k | 0 <= k < |a + b| ensures |(a + b)[k]| <= m {
      if k >= |a| { assert (a + b)[k] == b[k - |a|]; }
    }
  }

  lemma {:induction false} PiecesBounded(s: string, m: nat, from: nat)
    requires m >= 1
    ensures Bounded(Pieces(s, m, from), m)
    decreases |s| - from
  {
    if from < |s| {
      PiecesBounded(s, m, from + m);
      BoundedAppend([s[from..Min(from + m, |s|)]], Pieces(s, m, from + m), m);
    }
  }

  /** Trimming never lengthens a string. */
  lemma {:induction false} StripAllBounded(ps: seq<string>, m: nat)
    requires Bounded(ps, m)
    ensures Bounded(StripAll(ps), m)
  {
    if |ps| > 0 {
      assert Bounded(ps[1..], m) by {
        forall k | 0 <= k < |ps| - 1 ensures |ps[1..][k]| <= m { assert ps[1..][k] == ps[k + 1]; }
      }
      StripAllBounded(ps[1..], m);
      assert |Strip(ps[0])| <= m;
      BoundedAppend([Strip(ps[0])], StripAll(ps[1..]), m);
    }
  }

  lemma SentenceChunksBounded(sentence: string, m: nat)
    requires m >= 1
    ensures Bounded(SentenceChunks(sentence, m), m)
  {
    var t := Strip(sentence);
    if |t| > m {
      PiecesBounded(t, m, 0);
      StripAllBounded(Pieces(t, m, 0), m);
    }
  }

  lemma {:induction false} ChunksOfBounded(cs: seq<string>, m: nat)
    requires m >= 1
    ensures Bounded(ChunksOf(cs, m), m)
  {
    if |cs| > 0 {
      SentenceChunksBounded(cs[0], m);
      ChunksOfBounded(cs[1..], m);
      BoundedAppend(SentenceChunks(cs[0], m), ChunksOf(cs[1..], m), m);
    }
  }

  /** No chunk is longer than `m`. */
  lemma ChunkBound(text: string, m: nat)
    requires m >= 1
    ensures forall k :: 0 <= k < |Chunked(text, m)| ==> |Chunked(text, m)[k]| <= m
  {
    ChunksOfBounded(Candidates(text), m);
  }

  /** When every candidate is non-blank and short, the chunks are the trimmed candidates, one each, in order. */
  lemma {:induction false} ShortSentences(cs: seq<string>, m: nat)
    requires m >= 1
    requires forall k :: 0 <= k < |cs| ==> 0 < |Strip(cs[k])| <= m
    ensures |ChunksOf(cs, m)| == |cs|
    ensures forall k :: 0 <= k < |cs| ==> ChunksOf(cs, m)[k] == Strip(cs[k])
  {
    if |cs| > 0 {
      ShortSentences(cs[1..], m);
      assert ChunksOf(cs, m) == [Strip(cs[0])] + ChunksOf(cs[1..], m);
      forall k | 0 < k < |cs| ensures ChunksOf(cs, m)[k] == Strip(cs[k]) {
        assert cs[1..][k - 1] == cs[k];
      }
    }
  }

  /** A text made only of whitespace (the empty text among them) has no chunks. */
  lemma BlankText(text: string, m: nat)
    requires m >= 1 && AllSpace(text)
    ensures Chunked(text, m) == []
  {
    var i := NextBoundary(text, 0);
    if i < |text| {
      PrintableNotSpace(text[i - 1]);
      assert false;
    }
    assert Candidates(text) == [text];
    StripBlank(text);
    assert ChunksOf([text], m) == SentenceChunks(text, m) + ChunksOf([], m);
  }

  // ---------------------------------------------------------------------
  // Nothing but whitespace is lost, and the order is kept
  // ---------------------------------------------------------------------

  lemma {:induction false} VisibleAppend(a: string, b: string)
    ensures Visible(a + b) == Visible(a) + Visible(b)
  {
    if |a| == 0 {
      assert a + b == b;
    } else {
      assert (a + b)[0] == a[0] && (a + b)[1..] == a[1..] + b;
      VisibleAppend(a[1..], b);
    }
  }

  lemma {:induction false} VisibleBlank(s: string)
    requires AllSpace(s)
    ensures Visible(s) == []
  {
    if |s| > 0 {
      assert AllSpace(s[1..]) by {
        forall i | 0 <= i < |s| - 1 ensures IsSpace(s[1..][i]) { assert s[1..][i] == s[i + 1]; }
      }
      VisibleBlank(s[1..]);
    }
  }

  lemma {:induction false} ConcatAppend(a: seq<string>, b: seq<string>)
    ensures Concat(a + b) == Concat(a) + Concat(b)
  {
    if |a| == 0 {
      assert a + b == b;
    } else {
      assert (a + b)[1..] == a[1..] + b;
      ConcatAppend(a[1..], b);
    }
  }

  lemma VisibleStrip(s: string)
    ensures Visible(Strip(s)) == Visible(s)
  {
    var u := TrimStart(s);
    var t := TrimEnd(u);
    TrimStartRemovesSpace(s);
    TrimEndRemovesSpace(u);
    TrimStartSuffix(s);
    TrimEndPrefix(u);
    assert s == s[..|s| - |u|] + u;
    VisibleAppend(s[..|s| - |u|], u);
    VisibleBlank(s[..|s| - |u|]);
    assert u == t + u[|t|..];
    VisibleAppend(t, u[|t|..]);
    VisibleBlank(u[|t|..]);
  }

  lemma {:induction false} VisibleStripAll(ps: seq<string>)
    ensures Visible(Concat(StripAll(ps))) == Visible(Concat(ps))
  {
    if |ps| > 0 {
      var r := StripAll(ps);
      VisibleStripAll(ps[1..]);
      assert r[1..] == StripAll(ps[1..]);
      VisibleAppend(Strip(ps[0]), Concat(r[1..]));
      VisibleAppend(ps[0], Concat(ps[1..]));
      VisibleStrip(ps[0]);
    }
  }

  lemma VisibleSentence(sentence: string, m: nat)
    requires m >= 1
    ensures Visible(Concat(SentenceChunks(sentence, m))) == Visible(sentence)
  {
    var t := Strip(sentence);
    VisibleStrip(sentence);
    if |t| == 0 {
      assert Visible(t) == [];
    } else if |t| <= m {
      assert SentenceChunks(sentence, m) == [t];
      assert |[t][1..]| == 0;
      assert Concat([t]) == t + Concat([t][1..]) == t + [];
      assert Concat([t]) == t;
    } else {
      VisibleStripAll(Pieces(t, m, 0));
      PiecesCover(t, m, 0);
      assert t[0..] == t;
    }
  }

  lemma {:induction false} VisibleChunksOf(cs: seq<string>, m: nat)
    requires m >= 1
    ensures Visible(Concat(ChunksOf(cs, m))) == Visible(Concat(cs))
  {
    if |cs| > 0 {
      VisibleChunksOf(cs[1..], m);
      VisibleSentence(cs[0], m);
      ConcatAppend(SentenceChunks(cs[0], m), ChunksOf(cs[1..], m));
      VisibleAppend(Concat(SentenceChunks(cs[0], m)), Concat(ChunksOf(cs[1..], m)));
      VisibleAppend(cs[0], Concat(cs[1..]));
    }
  }

  lemma {:induction false} VisibleWeave(cs: seq<string>, gs: seq<string>)
    requires |cs| == |gs| + 1
    requires forall k :: 0 <= k < |gs| ==> AllSpace(gs[k])
    ensures Visible(Weave(cs, gs)) == Visible(Concat(cs))
    decreases |gs|
  {
    if |gs| == 0 {
      assert |cs[1..]| == 0;
      assert Concat(cs) == cs[0] + Concat(cs[1..]) == cs[0] + [];
      assert Concat(cs) == cs[0] == Weave(cs, gs);
    } else {
      VisibleWeave(cs[1..], gs[1..]);
      VisibleAppend(cs[0] + gs[0], Weave(cs[1..], gs[1..]));
      VisibleAppend(cs[0], gs[0]);
      VisibleBlank(gs[0]);
      VisibleAppend(cs[0], Concat(cs[1..]));
    }
  }

  /**
   * The chunks, written one after the other, hold exactly the non-whitespace
   * characters of the text, in their original order.
   */
  lemma ChunksKeepText(text: string, m: nat)
    requires m >= 1
    ensures Visible(Concat(Chunked(text, m))) == Visible(text)
  {
    var cs, gs := Candidates(text), Gaps(text);
    CandidatesSplit(text);
    VisibleChunksOf(cs, m);
    VisibleWeave(cs, gs);
  }

  // ---------------------------------------------------------------------
  // Worked examples
  // ---------------------------------------------------------------------

  /** A string with no whitespace at either end is left as it is. */
  lemma StripClean(s: string)
    requires |s| == 0 || (!IsSpace(s[0]) && !IsSpace(s[|s| - 1]))
    ensures Strip(s) == s
  {
  }

  /** A string that starts and ends with printable ASCII characters is left as it is. */
  lemma StripPrintableEnds(s: string)
    requires |s| > 0 && ' ' < s[0] < '\U{0085}' && ' ' < s[|s| - 1] < '\U{0085}'
    ensures Strip(s) == s
  {
    PrintableNotSpace(s[0]);
    PrintableNotSpace(s[|s| - 1]);
    StripClean(s);
  }

  /** A string with no terminator except possibly its last character has no boundary. */
  lemma NoInnerTerminator(s: string)
    requires forall i :: 0 <= i < |s| - 1 ==> !IsTerminator(s[i])
    ensures NoBoundary(s)
  {
  }

  /** A text with no boundary is not split at all. */
  lemma SingleCandidate(s: string)
    requires NoBoundary(s)
    ensures Candidates(s) == [s] && Gaps(s) == []
  {
    var i := NextBoundary(s, 0);
  }

  /** A sentence with no boundary and nothing to strip, too long for one chunk, is sliced. */
  lemma LongSingleSentence(s: string, m: nat)
    requires m >= 1 && NoBoundary(s) && Strip(s) == s && |s| > m
    ensures Chunked(s, m) == Slices(s, m)
  {
    SingleCandidate(s);
    assert ChunksOf([s], m) == SentenceChunks(s, m) + ChunksOf([], m);
  }

  /** A string longer than `m` and at most `2 * m` long is cut once. */
  lemma TwoSlices(s: string, m: nat)
    requires m >= 1 && m < |s| <= 2 * m
    ensures Slices(s, m) == [Strip(s[..m]), Strip(s[m..])]
  {
    assert Min(m + m, |s|) == |s| && s[m..|s|] == s[m..];
    assert Pieces(s, m, m + m) == [];
    assert Pieces(s, m, m) == [s[m..]];
    assert Min(0 + m, |s|) == m && s[0..m] == s[..m];
    assert Pieces(s, m, 0) == [s[..m]] + [s[m..]];
    assert StripAll([s[m..]]) == [Strip(s[m..])] + StripAll([]);
  }

  /** Three hundred letters and a full stop form one candidate with nothing to strip. */
  lemma LongCandidate(s: string)
    requires s == seq(300, _ => 'A') + "."
    ensures Chunked(s, MaxLen) == Slices(s, MaxLen)
  {
    NoInnerTerminator(s);
    StripPrintableEnds(s);
    LongSingleSentence(s, MaxLen);
  }

  /**
   * Three hundred letters and a full stop are too long for one chunk: they
   * are cut into 280 letters and the remaining 20 with the stop.
   */
  lemma LongExample(s: string, a: string, b: string)
    requires a == seq(280, _ => 'A') && b == seq(20, _ => 'A') + "." && s == a + b
    ensures Chunked(s, MaxLen) == [a, b]
  {
    assert s == seq(300, _ => 'A') + ".";
    LongCandidate(s);
    TwoSlices(s, MaxLen);
    assert s[..280] == a && s[280..] == b;
    StripPrintableEnds(a);
    StripPrintableEnds(b);
  }

  /** The three sentences, separated by single spaces, form a well-formed split. */
  lemma ThreeWellSplit(a: string, b: string, c: string, g: string)
    requires a == "Hello world." && b == "This is a test!" && c == "Is it working?" && g == " "
    ensures WellSplit([a, b, c], [g, g])
  {
    assert NoBoundary(a) && NoBoundary(b) && NoBoundary(c) by {
      NoInnerTerminator(a);
      NoInnerTerminator(b);
      NoInnerTerminator(c);
    }
    assert IsGap(g) by { SpaceIsSpace(); }
    assert !IsSpace(b[0]) && !IsSpace(c[0]) by {
      PrintableNotSpace(b[0]);
      PrintableNotSpace(c[0]);
    }
    assert WellSplit([c], []);
    WellSplitCons(b, g, [c], []);
    WellSplitCons(a, g, [b, c], [g]);
  }

  /** Woven back together with their separators, the three sentences give the text. */
  lemma ThreeWeave(text: string, cs: seq<string>)
    requires text == "Hello world. This is a test! Is it working?"
    requires cs == ["Hello world.", "This is a test!", "Is it working?"]
    ensures Weave(cs, [" ", " "]) == text
  {
  }

  /** The three-sentence text splits at its two single spaces. */
  lemma ThreeCandidates(text: string, cs: seq<string>)
    requires text == "Hello world. This is a test! Is it working?"
    requires cs == ["Hello world.", "This is a test!", "Is it working?"]
    ensures Candidates(text) == cs && Gaps(text) == [" ", " "]
  {
    ThreeWellSplit(cs[0], cs[1], cs[2], " ");
    ThreeWeave(text, cs);
    CandidatesUnique(text, cs, [" ", " "]);
  }

  /** Each of the three sentences is short and has nothing to strip. */
  lemma ThreeClean(cs: seq<string>)
    requires cs == ["Hello world.", "This is a test!", "Is it working?"]
    ensures forall k :: 0 <= k < |cs| ==> Strip(cs[k]) == cs[k] && 0 < |cs[k]| <= MaxLen
  {
    StripPrintableEnds(cs[0]);
    StripPrintableEnds(cs[1]);
    StripPrintableEnds(cs[2]);
  }

  /** The three-sentence text splits into its three sentences, each one chunk. */
  lemma ThreeSentences(text: string, cs: seq<string>)
    requires text == "Hello world. This is a test! Is it working?"
    requires cs == ["Hello world.", "This is a test!", "Is it working?"]
    ensures Chunked(text, MaxLen) == cs
  {
    ThreeCandidates(text, cs);
    ThreeClean(cs);
    ShortSentences(cs, MaxLen);
  }

  /** A lone space strips to nothing. */
  lemma StripSpace()
    ensures Strip(" ") == ""
  {
    SpaceIsSpace();
    assert AllSpace(" ");
    StripBlank(" ");
  }

  /** "a b" cut one character at a time. */
  lemma EmptySlicePieces(s: string)
    requires s == "a b"
    ensures Pieces(s, 1, 0) == ["a", " ", "b"]
  {
    assert s[0..1] == "a" && s[1..2] == " " && s[2..3] == "b";
    assert Pieces(s, 1, 3) == [];
    assert Pieces(s, 1, 2) == ["b"];
    assert Pieces(s, 1, 1) == [" ", "b"];
  }

  /** Trimming the three one-character pieces empties only the space. */
  lemma EmptySliceStrip(ps: seq<string>)
    requires ps == ["a", " ", "b"]
    ensures StripAll(ps) == ["a", "", "b"]
  {
    StripAllCons("a", [" ", "b"]);
    StripAllCons(" ", ["b"]);
    StripAllCons("b", []);
    assert Strip("a") == "a" by { StripPrintableEnds("a"); }
    assert Strip("b") == "b" by { StripPrintableEnds("b"); }
    StripSpace();
  }

  /**
   * A slice that lands entirely on whitespace is still emitted, as an empty
   * chunk: "a b" cut one character at a time gives "a", "" and "b".
   */
  lemma EmptySliceExample(s: string)
    requires s == "a b"
    ensures Chunked(s, 1) == ["a", "", "b"]
  {
    assert Chunked(s, 1) == Slices(s, 1) by {
      NoInnerTerminator(s);
      StripPrintableEnds(s);
      LongSingleSentence(s, 1);
    }
    EmptySlicePieces(s);
    EmptySliceStrip(Pieces(s, 1, 0));
  }
}
