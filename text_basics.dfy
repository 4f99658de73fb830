/** Character classes and string helpers shared by the text processor:
    Python's `\s` (and `str.strip`), its `\w`, ASCII `lower()`, and the
    `' '.join` used to glue sentences into chunks. */
module TextBasics {

  /** The non-ASCII part of Python's Unicode-aware `\w`: which characters
      at or above U+0080 count as word characters. On ASCII the class is
      fixed (see IsWordChar); this part is left as a parameter. */
  type WordClass = char -> bool

  /** Python's whitespace (`\s` in a str pattern, `str.isspace`, `str.strip`). */
  predicate IsSpace(c: char) {
    || ('\t' <= c <= '\r')
    || ('\U{1C}' <= c <= ' ')
    || c == '\U{85}' || c == '\U{A0}' || c == '\U{1680}'
    || ('\U{2000}' <= c <= '\U{200A}')
    || c == '\U{2028}' || c == '\U{2029}' || c == '\U{202F}'
    || c == '\U{205F}' || c == '\U{3000}'
  }

  predicate IsAsciiUpper(c: char) { 'A' <= c <= 'Z' }

  predicate IsAsciiAlnum(c: char) { 'a' <= c <= 'z' || 'A' <= c <= 'Z' || '0' <= c <= '9' }

  /** Python's `\w`: `[A-Za-z0-9_]` on ASCII, `wc` above it (never whitespace). */
  predicate IsWordChar(wc: WordClass, c: char) {
    if c < '\U{80}' then IsAsciiAlnum(c) || c == '_' else wc(c) && !IsSpace(c)
  }

  function ToLower(c: char): (r: char)
    ensures !IsAsciiUpper(r)
    ensures IsAsciiUpper(c) ==> r as int == c as int + 32
    ensures !IsAsciiUpper(c) ==> r == c
  {
    if IsAsciiUpper(c) then (c as int + 32) as char else c
  }

  /** `str.lower()`, restricted to the ASCII letters. */
  function Lower(s: string): (r: string)
    ensures |r| == |s|
    ensures forall i :: 0 <= i < |r| ==> r[i] == ToLower(s[i])
    ensures forall i :: 0 <= i < |r| ==> !IsAsciiUpper(r[i])
  {
    seq(|s|, i requires 0 <= i < |s| => ToLower(s[i]))
  }

  /** `str.lstrip()`: drops the leading whitespace. */
  function TrimLeft(s: string): (r: string)
    ensures |r| <= |s| && r == s[|s| - |r|..]
    ensures forall k :: 0 <= k < |s| - |r| ==> IsSpace(s[k])
    ensures r == [] || !IsSpace(r[0])
  {
    if s != [] && IsSpace(s[0]) then TrimLeft(s[1..]) else s
  }

  /** `str.rstrip()`: drops the trailing whitespace. */
  function TrimRight(s: string): (r: string)
    ensures |r| <= |s| && r == s[..|r|]
    ensures forall k :: |r| <= k < |s| ==> IsSpace(s[k])
    ensures r == [] || !IsSpace(r[|r| - 1])
  {
    if s != [] && IsSpace(s[|s| - 1]) then TrimRight(s[..|s| - 1]) else s
  }

  /** `str.strip()`: the slice of `s` left once whitespace is cut from both ends. */
  function Strip(s: string): (r: string)
    ensures r == [] || (!IsSpace(r[0]) && !IsSpace(r[|r| - 1]))
    ensures StripOffset(s) + |r| <= |s| && r == s[StripOffset(s)..StripOffset(s) + |r|]
  {
    var l := TrimLeft(s);
    var r := TrimRight(l);
    SliceOfSuffix(s, |s| - |l|, |r|);
    r
  }

  /** Where the slice kept by `Strip` starts. */
  function StripOffset(s: string): nat {
    |s| - |TrimLeft(s)|
  }

  /** The non-whitespace characters of `s`, in order. */
  function NonSpace(s: string): string {
    if s == [] then [] else (if IsSpace(s[0]) then [] else [s[0]]) + NonSpace(s[1..])
  }

  lemma {:induction false} NonSpaceConcat(a: string, b: string)
    ensures NonSpace(a + b) == NonSpace(a) + NonSpace(b)
  {
    if a == [] {
      assert a + b == b;
    } else {
      assert (a + b)[0] == a[0] && (a + b)[1..] == a[1..] + b;
      NonSpaceConcat(a[1..], b);
    }
  }

  lemma {:induction false} NonSpaceOfSpaces(s: string)
    requires forall k :: 0 <= k < |s| ==> IsSpace(s[k])
    ensures NonSpace(s) == []
  {
    if s != [] {
      NonSpaceOfSpaces(s[1..]);
    }
  }

  lemma NonSpaceSplitAt(s: string, b: nat)
    requires b <= |s|
    ensures NonSpace(s) == NonSpace(s[..b]) + NonSpace(s[b..])
  {
    assert s == s[..b] + s[b..];
    NonSpaceConcat(s[..b], s[b..]);
  }

  lemma NonSpaceTrimLeft(s: string)
    ensures NonSpace(TrimLeft(s)) == NonSpace(s)
  {
    var t := TrimLeft(s);
    var run := s[..|s| - |t|];
    assert s == run + t;
    NonSpaceConcat(run, t);
    NonSpaceOfSpaces(run);
  }

  lemma {:induction false} NonSpaceTrimRight(s: string)
    ensures NonSpace(TrimRight(s)) == NonSpace(s)
  {
    var t := TrimRight(s);
    var run := s[|t|..];
    assert s == t + run;
    NonSpaceConcat(t, run);
    NonSpaceOfSpaces(run);
  }

  /** `str.strip()` removes only whitespace. */
  lemma NonSpaceStrip(s: string)
    ensures NonSpace(Strip(s)) == NonSpace(s)
  {
    NonSpaceTrimLeft(s);
    NonSpaceTrimRight(TrimLeft(s));
  }

  /** Every character of `g` is whitespace. */
  predicate AllSpace(g: string) {
    forall c :: c in g ==> IsSpace(c)
  }

  lemma AllSpaceByIndex(g: string)
    requires forall k :: 0 <= k < |g| ==> IsSpace(g[k])
    ensures AllSpace(g)
  {
  }

  /** `ps[0] + gs[0] + ps[1] + ... + gs[n - 1] + ps[n]`: the pieces of a split
      put back together with the text found between them. */
  function Interleave(ps: seq<string>, gs: seq<string>): string
    requires |ps| == |gs| + 1
  {
    if gs == [] then ps[0] else ps[0] + gs[0] + Interleave(ps[1..], gs[1..])
  }

  lemma InterleaveCons(p: string, g: string, ps: seq<string>, gs: seq<string>)
    requires |ps| == |gs| + 1
    ensures Interleave([p] + ps, [g] + gs) == p + g + Interleave(ps, gs)
  {
    assert ([p] + ps)[1..] == ps && ([g] + gs)[1..] == gs;
  }

  /** `' '.join(ss)`. */
  function JoinSpace(ss: seq<string>): string {
    if ss == [] then [] else if |ss| == 1 then ss[0] else ss[0] + " " + JoinSpace(ss[1..])
  }

  lemma {:induction false} JoinSpaceAppend(a: seq<string>, b: seq<string>)
    requires a != [] && b != []
    ensures JoinSpace(a + b) == JoinSpace(a) + " " + JoinSpace(b)
  {
    if |a| == 1 {
      assert (a + b)[1..] == b;
    } else {
      assert (a + b)[1..] == a[1..] + b;
      JoinSpaceAppend(a[1..], b);
    }
  }

  /** The concatenation of a sequence of sequences. */
  function Flatten<T>(gs: seq<seq<T>>): seq<T> {
    if gs == [] then [] else gs[0] + Flatten(gs[1..])
  }

  lemma {:induction false} FlattenAppend<T>(gs: seq<seq<T>>, g: seq<T>)
    ensures Flatten(gs + [g]) == Flatten(gs) + g
  {
    if gs != [] {
      assert (gs + [g])[1..] == gs[1..] + [g];
      FlattenAppend(gs[1..], g);
    }
  }

  lemma ConcatTail<T>(a: seq<T>, b: seq<T>)
    requires a != []
    ensures (a + b)[0] == a[0] && (a + b)[1..] == a[1..] + b
  {
  }

  lemma SplitLast<T>(a: seq<T>)
    requires a != []
    ensures a == a[..|a| - 1] + [a[|a| - 1]]
  {
  }

  lemma ConcatAssoc<T>(a: seq<T>, b: seq<T>, c: seq<T>)
    ensures a + b + c == a + (b + c)
  {
  }

  lemma SuffixChars<T>(s: seq<T>, k: nat)
    requires k <= |s|
    ensures forall x :: x in s[k..] ==> x in s
  {
  }

  lemma SliceOfSuffix<T>(s: seq<T>, a: nat, n: nat)
    requires a + n <= |s|
    ensures s[a..][..n] == s[a..a + n]
  {
  }

  lemma SplitAt<T>(s: seq<T>, n: nat)
    requires n <= |s|
    ensures s == s[..n] + s[n..]
  {
  }

  lemma SuffixAt<T>(s: seq<T>, e: nat, y: nat)
    requires e <= y < |s|
    ensures s[e..][y - e] == s[y]
  {
  }

  lemma SliceOfPrefix<T>(s: seq<T>, i: nat, a: nat, b: nat)
    requires a <= b <= i <= |s|
    ensures s[..i][a..b] == s[a..b]
  {
  }

  /** The slice `s[i..k]` is its first element followed by the rest. */
  lemma HeadSplit<T>(s: seq<T>, i: nat, k: nat)
    requires i < k <= |s|
    ensures s[i..] != [] && s[i..][0] == s[i] && s[i..][1..] == s[i + 1..]
    ensures s[i..k] == [s[i]] + s[i + 1..k]
  {
  }

  lemma SliceThree<T>(s: seq<T>, i: nat, e: nat)
    requires i <= e <= |s|
    ensures s == s[..i] + s[i..e] + s[e..]
  {
    assert s[..e] == s[..i] + s[i..e];
  }
}
