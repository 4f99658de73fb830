/** `TextProcessor.extract_keywords`: tokenise the lower-cased text, keep the
    words that are long enough and not stop words, count them in a dictionary,
    sort the entries by (frequency, length) descending and keep the first few. */
module Keywords {
  import opened TextBasics

  /** Length of the run of word characters at the start of `s`. */
  function WordPrefixLength(wc: WordClass, s: string): (n: nat)
    ensures n <= |s|
    ensures forall i :: 0 <= i < n ==> IsWordChar(wc, s[i])
    ensures n < |s| ==> !IsWordChar(wc, s[n])
  {
    if s != [] && IsWordChar(wc, s[0]) then 1 + WordPrefixLength(wc, s[1..]) else 0
  }

  /** No ASCII capital letter occurs in `s`. */
  predicate NoUpper(s: string) {
    forall i :: 0 <= i < |s| ==> !IsAsciiUpper(s[i])
  }

  /** The word characters of `s`, in order. */
  function WordChars(wc: WordClass, s: string): string {
    if s == [] then [] else (if IsWordChar(wc, s[0]) then [s[0]] else []) + WordChars(wc, s[1..])
  }

  /** `re.findall(r'\b\w+\b', s)`: the maximal runs of word characters. The `\b`
      before a greedy `\w+` only admits the first character of a run, and the
      greedy `\w+` then ends where the run ends, which satisfies the second `\b`. */
  function Words(wc: WordClass, s: string): (r: seq<string>)
    decreases |s|
    ensures forall i :: 0 <= i < |r| ==> r[i] != []
    ensures forall i, j :: 0 <= i < |r| && 0 <= j < |r[i]| ==> IsWordChar(wc, r[i][j])
    ensures NoUpper(s) ==> forall i :: 0 <= i < |r| ==> NoUpper(r[i])
  {
    if s == [] then []
    else if !IsWordChar(wc, s[0]) then Words(wc, s[1..])
    else
      var n := WordPrefixLength(wc, s);
      [s[..n]] + Words(wc, s[n..])
  }

  /** No character of `g` is a word character. */
  predicate NoWordChars(wc: WordClass, g: string) {
    forall c :: c in g ==> !IsWordChar(wc, c)
  }

  /** `gaps` is the non-word text around the words of `s`: put back together
      with the words it gives `s`, and between two words it is not empty. */
  predicate WordGaps(wc: WordClass, s: string, gaps: seq<string>) {
    && |gaps| == |Words(wc, s)| + 1
    && (forall g :: g in gaps ==> NoWordChars(wc, g))
    && (forall i :: 0 < i < |gaps| - 1 ==> gaps[i] != [])
    && (s != [] && !IsWordChar(wc, s[0]) ==> gaps[0] != [])
    && Interleave(gaps, Words(wc, s)) == s
  }

  /** The words are the maximal runs of word characters: the text is the words
      put back together with the non-word text around them, and between two
      consecutive words that text is not empty. */
  lemma {:induction false} WordsRebuild(wc: WordClass, s: string) returns (gaps: seq<string>)
    decreases |s|
    ensures WordGaps(wc, s, gaps)
  {
    if s == [] {
      gaps := [[]];
    } else if !IsWordChar(wc, s[0]) {
      var more := WordsRebuild(wc, s[1..]);
      gaps := [[s[0]] + more[0]] + more[1..];
      WordGapsSkip(wc, s, more);
    } else {
      var more := WordsRebuild(wc, s[WordPrefixLength(wc, s)..]);
      gaps := [[]] + more;
      WordGapsWord(wc, s, more);
    }
  }

  /** A non-word character joins the first gap. */
  lemma WordGapsSkip(wc: WordClass, s: string, more: seq<string>)
    requires s != [] && !IsWordChar(wc, s[0]) && WordGaps(wc, s[1..], more)
    ensures WordGaps(wc, s, [[s[0]] + more[0]] + more[1..])
  {
    var gaps := [[s[0]] + more[0]] + more[1..];
    InterleaveHead([s[0]], more, Words(wc, s[1..]));
    assert s == [s[0]] + s[1..];
    forall g | g in gaps ensures NoWordChars(wc, g) {
      if g == gaps[0] {
        assert more[0] in more;
      } else {
        assert g in more[1..];
      }
    }
    assert forall i :: 0 < i < |gaps| ==> gaps[i] == more[i];
  }

  /** A word is preceded by an empty gap. */
  lemma WordGapsWord(wc: WordClass, s: string, more: seq<string>)
    requires s != [] && IsWordChar(wc, s[0])
    requires WordGaps(wc, s[WordPrefixLength(wc, s)..], more)
    ensures WordGaps(wc, s, [[]] + more)
  {
    var n := WordPrefixLength(wc, s);
    var words := Words(wc, s[n..]);
    var gaps := [[]] + more;
    assert Words(wc, s) == [s[..n]] + words;
    InterleaveCons([], s[..n], more, words);
    SplitAt(s, n);
    assert [] + s[..n] == s[..n];
    assert forall g :: g in gaps ==> g == [] || g in more;
    assert forall i :: 0 < i < |gaps| ==> gaps[i] == more[i - 1];
  }

  /** Text added in front of the first piece comes first. */
  lemma InterleaveHead(x: string, ps: seq<string>, gs: seq<string>)
    requires |ps| == |gs| + 1
    ensures Interleave([x + ps[0]] + ps[1..], gs) == x + Interleave(ps, gs)
  {
    var qs := [x + ps[0]] + ps[1..];
    assert qs[0] == x + ps[0] && qs[1..] == ps[1..];
    if gs != [] {
      ConcatAssoc(x, ps[0], gs[0] + Interleave(ps[1..], gs[1..]));
      ConcatAssoc(x + ps[0], gs[0], Interleave(ps[1..], gs[1..]));
      ConcatAssoc(ps[0], gs[0], Interleave(ps[1..], gs[1..]));
    }
  }

  /** Tokenising keeps every word character of the text, in order, and nothing else. */
  lemma {:induction false} WordsKeepWordChars(wc: WordClass, s: string)
    ensures Flatten(Words(wc, s)) == WordChars(wc, s)
    decreases |s|
  {
    if s != [] {
      if !IsWordChar(wc, s[0]) {
        WordsKeepWordChars(wc, s[1..]);
      } else {
        var n := WordPrefixLength(wc, s);
        var rest := Words(wc, s[n..]);
        assert Words(wc, s) == [s[..n]] + rest;
        assert ([s[..n]] + rest)[1..] == rest;
        WordsKeepWordChars(wc, s[n..]);
        WordCharsSplit(wc, s, n);
      }
    }
  }

  lemma {:induction false} WordCharsSplit(wc: WordClass, s: string, n: nat)
    requires n <= |s|
    requires forall i :: 0 <= i < n ==> IsWordChar(wc, s[i])
    ensures WordChars(wc, s) == s[..n] + WordChars(wc, s[n..])
  {
    if n > 0 {
      assert s[1..][..n - 1] == s[1..n];
      assert s[1..][n - 1..] == s[n..];
      WordCharsSplit(wc, s[1..], n - 1);
      assert s[..n] == [s[0]] + s[1..n];
    }
  }

  /** The stop words of `extract_keywords`. */
  const StopWords: set<string> := {
    "the", "and", "is", "in", "to", "of", "a", "for", "that", "this",
    "an", "be", "have", "it", "on", "at", "are", "was", "were", "will"
  }

  predicate IsCandidate(w: string) { w !in StopWords && |w| > 3 }

  /** `[word for word in words if word not in common_words and len(word) > 3]`. */
  function Candidates(words: seq<string>): (r: seq<string>)
    ensures forall i :: 0 <= i < |r| ==> r[i] in words && IsCandidate(r[i])
    ensures forall w :: w in words && IsCandidate(w) ==> w in r
    ensures forall w :: Occurrences(r, w) == if IsCandidate(w) then Occurrences(words, w) else 0
  {
    if words == [] then []
    else
      var rest := Candidates(words[1..]);
      CandidatesStep(words, rest);
      (if IsCandidate(words[0]) then [words[0]] else []) + rest
  }

  /** The count of every word carries over from the tail to the whole list. */
  lemma CandidatesStep(words: seq<string>, rest: seq<string>)
    requires words != []
    requires forall w :: Occurrences(rest, w) == if IsCandidate(w) then Occurrences(words[1..], w) else 0
    ensures var head := if IsCandidate(words[0]) then [words[0]] else [];
      forall w :: Occurrences(head + rest, w) == if IsCandidate(w) then Occurrences(words, w) else 0
  {
    var head := if IsCandidate(words[0]) then [words[0]] else [];
    assert words == [words[0]] + words[1..];
    forall w ensures Occurrences(head + rest, w) == if IsCandidate(w) then Occurrences(words, w) else 0 {
      OccurrencesConcat(head, rest, w);
      OccurrencesConcat([words[0]], words[1..], w);
      OccurrencesOne(words[0], w);
      if head != [] {
        OccurrencesOne(head[0], w);
        assert head == [head[0]];
      }
    }
  }

  /** The candidates stay in text order: filtering a concatenation is filtering
      each part. */
  lemma {:induction false} CandidatesConcat(a: seq<string>, b: seq<string>)
    ensures Candidates(a + b) == Candidates(a) + Candidates(b)
  {
    if a == [] {
      assert a + b == b;
    } else {
      var head := if IsCandidate(a[0]) then [a[0]] else [];
      ConcatTail(a, b);
      CandidatesConcat(a[1..], b);
      CandidatesUnfold(a);
      CandidatesUnfold(a + b);
      ConcatAssoc(head, Candidates(a[1..]), Candidates(b));
    }
  }

  lemma CandidatesUnfold(words: seq<string>)
    requires words != []
    ensures Candidates(words) == (if IsCandidate(words[0]) then [words[0]] else []) + Candidates(words[1..])
  {
  }

  /** The candidate keywords of a text, in text order, with repetitions:
      lower-case words of the text that are candidates. */
  function TextCandidates(wc: WordClass, text: string): (r: seq<string>)
    ensures forall w :: w in r ==> w in Words(wc, Lower(text)) && IsCandidate(w) && NoUpper(w)
  {
    Candidates(Words(wc, Lower(text)))
  }

  /** How often `w` occurs in `ws`: at most the length of `ws`, and zero
      exactly when `w` is absent. */
  function Occurrences(ws: seq<string>, w: string): (n: nat)
    ensures n <= |ws|
    ensures n == 0 <==> w !in ws
  {
    if ws == [] then 0
    else
      assert forall v :: v in ws <==> v in ws[..|ws| - 1] || v == ws[|ws| - 1] by {
        SplitLast(ws);
      }
      Occurrences(ws[..|ws| - 1], w) + (if ws[|ws| - 1] == w then 1 else 0)
  }

  lemma {:induction false} OccurrencesConcat(a: seq<string>, b: seq<string>, w: string)
    ensures Occurrences(a + b, w) == Occurrences(a, w) + Occurrences(b, w)
  {
    if b == [] {
      assert a + b == a;
    } else {
      var init := b[..|b| - 1];
      assert (a + b)[..|a + b| - 1] == a + init;
      assert (a + b)[|a + b| - 1] == b[|b| - 1];
      OccurrencesConcat(a, init, w);
    }
  }

  lemma OccurrencesOne(x: string, w: string)
    ensures Occurrences([x], w) == if x == w then 1 else 0
  {
    assert [x][..0] == [];
  }

  predicate Distinct<T(==)>(s: seq<T>) {
    forall i, j :: 0 <= i < j < |s| ==> s[i] != s[j]
  }

  /** Where `w` first occurs in `ws`. */
  function FirstIndex(ws: seq<string>, w: string): (n: nat)
    requires w in ws
    ensures n < |ws| && ws[n] == w
    ensures forall k :: 0 <= k < n ==> ws[k] != w
  {
    if ws[0] == w then 0 else 1 + FirstIndex(ws[1..], w)
  }

  /** The distinct elements of `ws` in order of first occurrence: the key order
      of a Python dictionary filled from `ws`. */
  function Dedup(ws: seq<string>): (r: seq<string>)
    ensures Distinct(r)
    ensures forall w :: w in r <==> w in ws
    ensures FirstOccurrenceOrder(ws, r)
  {
    if ws == [] then []
    else
      var d := Dedup(ws[..|ws| - 1]);
      var w := ws[|ws| - 1];
      assert forall v :: v in ws <==> v in ws[..|ws| - 1] || v == w by {
        assert ws == ws[..|ws| - 1] + [w];
      }
      DedupStep(ws, d);
      if w in d then d else d + [w]
  }

  /** The words of `r` occur in `ws`, and each first occurs before the next. */
  predicate FirstOccurrenceOrder(ws: seq<string>, r: seq<string>) {
    forall i, j :: 0 <= i < j < |r| ==>
      r[i] in ws && r[j] in ws && FirstIndex(ws, r[i]) < FirstIndex(ws, r[j])
  }

  /** The first occurrence of a word of `init` is the same in `ws`. */
  lemma FirstIndexOfInit(ws: seq<string>, v: string)
    requires ws != [] && v in ws[..|ws| - 1]
    ensures v in ws && FirstIndex(ws, v) == FirstIndex(ws[..|ws| - 1], v)
  {
    var init := ws[..|ws| - 1];
    var m := FirstIndex(init, v);
    assert ws[m] == init[m];
    assert forall k :: 0 <= k < m ==> ws[k] == init[k];
    FirstIndexAt(ws, v, m);
  }

  lemma {:induction false} FirstIndexAt(ws: seq<string>, v: string, m: nat)
    requires m < |ws| && ws[m] == v && forall k :: 0 <= k < m ==> ws[k] != v
    ensures v in ws && FirstIndex(ws, v) == m
  {
    if m > 0 {
      assert forall k :: 0 <= k < m - 1 ==> ws[1..][k] == ws[k + 1];
      FirstIndexAt(ws[1..], v, m - 1);
    }
  }

  /** Appending a new word puts it last in first-occurrence order. */
  lemma DedupStep(ws: seq<string>, d: seq<string>)
    requires ws != []
    requires forall v :: v in d <==> v in ws[..|ws| - 1]
    requires FirstOccurrenceOrder(ws[..|ws| - 1], d)
    ensures FirstOccurrenceOrder(ws, if ws[|ws| - 1] in d then d else d + [ws[|ws| - 1]])
  {
    var init := ws[..|ws| - 1];
    var w := ws[|ws| - 1];
    var r := if w in d then d else d + [w];
    forall k | 0 <= k < |d| ensures d[k] in ws && FirstIndex(ws, d[k]) == FirstIndex(init, d[k]) {
      assert d[k] in d;
      FirstIndexOfInit(ws, d[k]);
    }
    if w !in d {
      assert forall k :: 0 <= k < |ws| - 1 ==> ws[k] == init[k] && init[k] in init;
      FirstIndexAt(ws, w, |ws| - 1);
      forall i, j | 0 <= i < j < |r| ensures r[i] in ws && r[j] in ws && FirstIndex(ws, r[i]) < FirstIndex(ws, r[j]) {
        assert r[i] == d[i];
        if j < |d| { assert r[j] == d[j]; }
      }
    }
  }

  /** The loop filling `keyword_freq`: the dictionary is a map together with
      the order in which its keys were first inserted. */
  method CountFrequencies(ws: seq<string>) returns (freq: map<string, nat>, order: seq<string>)
    ensures order == Dedup(ws)
    ensures forall w :: w in freq <==> w in ws
    ensures forall w :: w in freq ==> freq[w] == Occurrences(ws, w)
  {
    freq := map[];
    order := [];
    for i := 0 to |ws|
      invariant order == Dedup(ws[..i])
      invariant Tallied(freq, ws[..i])
    {
      var word := ws[i];
      DedupPrefixStep(ws, i);
      CountPrefixStep(ws, i);
      TallyStep(freq, ws, i);
      if word !in freq {
        order := order + [word];
      }
      freq := freq[word := (if word in freq then freq[word] else 0) + 1];
    }
    assert ws[..|ws|] == ws;
  }

  /** `freq` holds exactly the words of `ws`, each with its count. */
  ghost predicate Tallied(freq: map<string, nat>, ws: seq<string>) {
    && (forall w :: w in freq <==> w in ws)
    && (forall w :: w in freq ==> freq[w] == Occurrences(ws, w))
  }

  /** `keyword_freq[word] = keyword_freq.get(word, 0) + 1` keeps the tally. */
  lemma TallyStep(freq: map<string, nat>, ws: seq<string>, i: nat)
    requires i < |ws| && Tallied(freq, ws[..i])
    ensures Tallied(freq[ws[i] := (if ws[i] in freq then freq[ws[i]] else 0) + 1], ws[..i + 1])
  {
    CountPrefixStep(ws, i);
  }

  /** How the key order changes with one more word. */
  lemma DedupPrefixStep(ws: seq<string>, i: nat)
    requires i < |ws|
    ensures Dedup(ws[..i + 1])
      == if ws[i] in Dedup(ws[..i]) then Dedup(ws[..i]) else Dedup(ws[..i]) + [ws[i]]
  {
    assert ws[..i + 1][..i] == ws[..i];
  }

  /** How the keys and the counts change with one more word. */
  lemma CountPrefixStep(ws: seq<string>, i: nat)
    requires i < |ws|
    ensures forall w :: w in ws[..i + 1] <==> w in ws[..i] || w == ws[i]
    ensures forall w :: Occurrences(ws[..i + 1], w) == Occurrences(ws[..i], w) + (if ws[i] == w then 1 else 0)
  {
    assert ws[..i + 1][..i] == ws[..i];
    assert ws[..i + 1] == ws[..i] + [ws[i]];
  }

  /** An entry of `keyword_freq.items()`: a word and its frequency. */
  type Entry = (string, nat)

  /** `a` sorts no later than `b` under `key=lambda x: (x[1], len(x[0]))`
      with `reverse=True`: its (frequency, length) pair is at least `b`'s. */
  predicate RanksAtLeast(a: Entry, b: Entry) {
    a.1 > b.1 || (a.1 == b.1 && |a.0| >= |b.0|)
  }

  /** `a`'s sort key is strictly greater than `b`'s. */
  predicate Outranks(a: Entry, b: Entry) {
    !RanksAtLeast(b, a)
  }

  predicate Ranked(s: seq<Entry>) {
    forall i, j :: 0 <= i < j < |s| ==> RanksAtLeast(s[i], s[j])
  }

  /** Places `x` after the entries that outrank it and before the others, so
      that among equal keys `x` stays first. */
  function Insert(x: Entry, s: seq<Entry>): (r: seq<Entry>)
    ensures multiset(r) == multiset(s) + multiset{x}
    ensures |r| == |s| + 1
  {
    if s == [] then [x]
    else
      assert s == [s[0]] + s[1..];
      if Outranks(s[0], x) then [s[0]] + Insert(x, s[1..])
      else [x] + s
  }

  /** The stable sort that `sorted(..., key=..., reverse=True)` performs,
      written as an insertion sort. */
  function SortByRank(s: seq<Entry>): (r: seq<Entry>)
    ensures multiset(r) == multiset(s)
    ensures |r| == |s|
  {
    if s == [] then []
    else
      assert s == [s[0]] + s[1..];
      Insert(s[0], SortByRank(s[1..]))
  }

  lemma {:induction false} InsertRanked(x: Entry, s: seq<Entry>)
    requires Ranked(s)
    ensures Ranked(Insert(x, s))
  {
    if s != [] {
      if Outranks(s[0], x) {
        var rest := Insert(x, s[1..]);
        InsertPastHead(x, s);
        RankedTail(s);
        InsertRanked(x, s[1..]);
        forall e | e in rest ensures RanksAtLeast(s[0], e) {
          assert e in multiset(rest);
          if e != x {
            var j :| 0 <= j < |s[1..]| && s[1..][j] == e;
            assert s[j + 1] == e;
          }
        }
        RankedCons(s[0], rest);
      } else {
        assert Insert(x, s) == [x] + s;
        forall f | f in s ensures RanksAtLeast(x, f) {
          var j :| 0 <= j < |s| && s[j] == f;
          if j > 0 {
            assert RanksAtLeast(s[0], s[j]);
          }
        }
        RankedCons(x, s);
      }
    }
  }

  lemma RankedTail(s: seq<Entry>)
    requires s != [] && Ranked(s)
    ensures Ranked(s[1..])
  {
    assert forall i, j :: 0 <= i < j < |s| - 1 ==> s[1..][i] == s[i + 1] && s[1..][j] == s[j + 1];
  }

  /** An entry that ranks at least as high as every entry of a ranked list can
      go in front of it. */
  lemma RankedCons(e: Entry, t: seq<Entry>)
    requires Ranked(t) && forall f :: f in t ==> RanksAtLeast(e, f)
    ensures Ranked([e] + t)
  {
    var r := [e] + t;
    forall i, j | 0 <= i < j < |r| ensures RanksAtLeast(r[i], r[j]) {
      assert r[j] == t[j - 1];
      if i > 0 {
        assert r[i] == t[i - 1];
      } else {
        assert t[j - 1] in t;
      }
    }
  }

  /** The sort puts the entries in non-increasing order of (frequency, length). */
  lemma {:induction false} SortByRankRanked(s: seq<Entry>)
    ensures Ranked(SortByRank(s))
  {
    if s != [] {
      SortByRankRanked(s[1..]);
      InsertRanked(s[0], SortByRank(s[1..]));
    }
  }

  /** The entries of `s` whose sort key is `k`, in order. */
  function WithKey(k: (nat, nat), s: seq<Entry>): seq<Entry> {
    if s == [] then []
    else (if (s[0].1, |s[0].0|) == k then [s[0]] else []) + WithKey(k, s[1..])
  }

  lemma {:induction false} InsertWithKey(k: (nat, nat), x: Entry, s: seq<Entry>)
    ensures WithKey(k, Insert(x, s)) == (if (x.1, |x.0|) == k then [x] else []) + WithKey(k, s)
  {
    if s == [] {
      assert Insert(x, s) == [x];
      WithKeyCons(k, x, []);
    } else if Outranks(s[0], x) {
      InsertWithKey(k, x, s[1..]);
      WithKeyPastHead(k, x, s);
    } else {
      assert Insert(x, s) == [x] + s;
      WithKeyCons(k, x, s);
    }
  }

  /** The step of InsertWithKey where `x` moves past the head of `s`. */
  lemma WithKeyPastHead(k: (nat, nat), x: Entry, s: seq<Entry>)
    requires s != [] && Outranks(s[0], x)
    requires WithKey(k, Insert(x, s[1..])) == (if (x.1, |x.0|) == k then [x] else []) + WithKey(k, s[1..])
    ensures WithKey(k, Insert(x, s)) == (if (x.1, |x.0|) == k then [x] else []) + WithKey(k, s)
  {
    var rest := Insert(x, s[1..]);
    var a := if (x.1, |x.0|) == k then [x] else [];
    var b := if (s[0].1, |s[0].0|) == k then [s[0]] else [];
    InsertPastHead(x, s);
    WithKeyCons(k, s[0], rest);
    WithKeyUnfold(k, s);
    SwapEmpty(a, b, WithKey(k, s[1..]));
  }

  lemma WithKeyUnfold(k: (nat, nat), s: seq<Entry>)
    requires s != []
    ensures WithKey(k, s) == (if (s[0].1, |s[0].0|) == k then [s[0]] else []) + WithKey(k, s[1..])
  {
  }

  lemma SwapEmpty<T>(a: seq<T>, b: seq<T>, w: seq<T>)
    requires a == [] || b == []
    ensures b + (a + w) == a + (b + w)
  {
  }

  lemma InsertPastHead(x: Entry, s: seq<Entry>)
    requires s != [] && Outranks(s[0], x)
    ensures Insert(x, s) == [s[0]] + Insert(x, s[1..])
  {
  }

  lemma WithKeyCons(k: (nat, nat), x: Entry, s: seq<Entry>)
    ensures WithKey(k, [x] + s) == (if (x.1, |x.0|) == k then [x] else []) + WithKey(k, s)
  {
    assert ([x] + s)[0] == x && ([x] + s)[1..] == s;
  }

  /** The sort is stable: the entries that share a sort key keep their
      original relative order. */
  lemma {:induction false} SortByRankStable(k: (nat, nat), s: seq<Entry>)
    ensures WithKey(k, SortByRank(s)) == WithKey(k, s)
  {
    if s != [] {
      SortByRankStable(k, s[1..]);
      InsertWithKey(k, s[0], SortByRank(s[1..]));
    }
  }

  /** The words of the entries. */
  function Names(s: seq<Entry>): (r: seq<string>)
    ensures |r| == |s|
    ensures forall i :: 0 <= i < |s| ==> r[i] == s[i].0
  {
    seq(|s|, i requires 0 <= i < |s| => s[i].0)
  }

  lemma {:induction false} InsertNamesDistinct(x: Entry, s: seq<Entry>)
    requires Distinct(Names(s)) && x.0 !in Names(s)
    ensures Distinct(Names(Insert(x, s)))
  {
    if s == [] {
    } else if Outranks(s[0], x) {
      var rest := Insert(x, s[1..]);
      assert s == [s[0]] + s[1..];
      NamesCons(s[0], s[1..]);
      DistinctCons(s[0].0, Names(s[1..]));
      InsertNamesDistinct(x, s[1..]);
      InsertNames(x, s[1..], s[0].0);
      NamesCons(s[0], rest);
      DistinctCons(s[0].0, Names(rest));
    } else {
      NamesCons(x, s);
      DistinctCons(x.0, Names(s));
    }
  }

  lemma NamesCons(e: Entry, t: seq<Entry>)
    ensures Names([e] + t) == [e.0] + Names(t)
  {
    assert forall i :: 0 < i < |t| + 1 ==> ([e] + t)[i] == t[i - 1];
  }

  lemma DistinctCons<T>(a: T, t: seq<T>)
    ensures Distinct([a] + t) <==> a !in t && Distinct(t)
  {
    var r := [a] + t;
    assert forall i :: 0 < i < |r| ==> r[i] == t[i - 1];
    if a !in t && Distinct(t) {
      forall i, j | 0 <= i < j < |r| ensures r[i] != r[j] {
        if i == 0 { assert r[j] in t; }
      }
    }
    if Distinct(r) {
      forall i, j | 0 <= i < j < |t| ensures t[i] != t[j] {
        assert r[i + 1] != r[j + 1];
      }
      forall k | 0 <= k < |t| ensures t[k] != a {
        assert r[0] != r[k + 1];
      }
    }
  }

  /** A word is among the names of `t` exactly when some entry of `t` has it. */
  lemma NamesMembers(t: seq<Entry>, w: string)
    ensures w in Names(t) <==> exists e :: e in t && e.0 == w
  {
    if w in Names(t) {
      var i :| 0 <= i < |t| && Names(t)[i] == w;
      assert t[i] in t;
    }
  }

  /** Insertion adds exactly the new entry's word to the names. */
  lemma InsertNames(x: Entry, s: seq<Entry>, w: string)
    ensures w in Names(Insert(x, s)) <==> w == x.0 || w in Names(s)
  {
    var r := Insert(x, s);
    NamesMembers(r, w);
    NamesMembers(s, w);
    assert forall e :: e in r <==> e in multiset(r);
    assert forall e :: e in s <==> e in multiset(s);
  }

  /** Sorting entries with distinct words keeps the words distinct. */
  lemma {:induction false} SortByRankNamesDistinct(s: seq<Entry>)
    requires Distinct(Names(s))
    ensures Distinct(Names(SortByRank(s)))
  {
    if s != [] {
      var sorted := SortByRank(s[1..]);
      assert Names(s[1..]) == Names(s)[1..];
      SortByRankNamesDistinct(s[1..]);
      forall m | 0 <= m < |sorted| ensures Names(sorted)[m] != s[0].0 {
        assert sorted[m] in multiset(s[1..]);
        var n :| 0 <= n < |s[1..]| && s[1..][n] == sorted[m];
        assert Names(s)[n + 1] == sorted[m].0 && Names(s)[0] == s[0].0;
      }
      InsertNamesDistinct(s[0], sorted);
    }
  }

  /** `keyword_freq.items()` for the candidate list `ws`: every distinct
      candidate, in order of first occurrence, with its frequency. */
  function FrequencyTable(ws: seq<string>): (r: seq<Entry>)
    ensures Names(r) == Dedup(ws)
    ensures forall i :: 0 <= i < |r| ==> r[i].1 == Occurrences(ws, r[i].0)
  {
    var d := Dedup(ws);
    seq(|d|, i requires 0 <= i < |d| => (d[i], Occurrences(ws, d[i])))
  }

  /** Python's `s[:n]`; a negative `n` drops the last `-n` elements. */
  function PrefixSlice<T>(s: seq<T>, n: int): (r: seq<T>)
    ensures n >= 0 ==> |r| == if n < |s| then n else |s|
    ensures n < 0 ==> |r| == if |s| + n > 0 then |s| + n else 0
    ensures r == s[..|r|]
  {
    if n >= 0 then (if n < |s| then s[..n] else s)
    else (if |s| + n > 0 then s[..|s| + n] else [])
  }

  /** The entry for `w` under the frequencies counted in `ws`. */
  function EntryOf(ws: seq<string>, w: string): Entry {
    (w, Occurrences(ws, w))
  }

  /** `TextProcessor.extract_keywords`. */
  method ExtractKeywords(wc: WordClass, text: string, maxKeywords: int) returns (keywords: seq<string>)
    ensures text == [] ==> keywords == []
    ensures text != [] ==> keywords == Names(PrefixSlice(SortByRank(FrequencyTable(TextCandidates(wc, text))), maxKeywords))
    ensures maxKeywords >= 0 ==> |keywords| <= maxKeywords
    ensures Distinct(keywords)
    ensures forall i :: 0 <= i < |keywords| ==>
      keywords[i] in Words(wc, Lower(text)) && IsCandidate(keywords[i]) && NoUpper(keywords[i])
    ensures forall i, j :: 0 <= i < j < |keywords| ==>
      RanksAtLeast(EntryOf(TextCandidates(wc, text), keywords[i]), EntryOf(TextCandidates(wc, text), keywords[j]))
    ensures forall w, i :: w in TextCandidates(wc, text) && w !in keywords && 0 <= i < |keywords| ==>
      RanksAtLeast(EntryOf(TextCandidates(wc, text), keywords[i]), EntryOf(TextCandidates(wc, text), w))
  {
    if text == [] {
      return [];
    }
    var words := Words(wc, Lower(text));
    var candidates := Candidates(words);
    var freq, order := CountFrequencies(candidates);
    var items := seq(|order|, i requires 0 <= i < |order| => (order[i], freq[order[i]]));
    assert items == FrequencyTable(candidates);
    var ranked := SortByRank(items);
    var top := PrefixSlice(ranked, maxKeywords);
    keywords := Names(top);
    KeywordsFacts(wc, text, maxKeywords);
  }

  /** `extract_keywords(text)` with the default `max_keywords=10`. */
  method ExtractKeywordsDefault(wc: WordClass, text: string) returns (keywords: seq<string>)
    ensures text == [] ==> keywords == []
    ensures text != [] ==> keywords == Names(PrefixSlice(SortByRank(FrequencyTable(TextCandidates(wc, text))), 10))
    ensures |keywords| <= 10
  {
    keywords := ExtractKeywords(wc, text, 10);
  }

  /** The promises of `extract_keywords`, for the words it returns. */
  lemma KeywordsFacts(wc: WordClass, text: string, maxKeywords: int)
    ensures var cs := TextCandidates(wc, text);
      var keywords := Names(PrefixSlice(SortByRank(FrequencyTable(cs)), maxKeywords));
      && (maxKeywords >= 0 ==> |keywords| <= maxKeywords)
      && Distinct(keywords)
      && (forall i :: 0 <= i < |keywords| ==>
            keywords[i] in Words(wc, Lower(text)) && IsCandidate(keywords[i]) && NoUpper(keywords[i]))
      && (forall i, j :: 0 <= i < j < |keywords| ==>
            RanksAtLeast(EntryOf(cs, keywords[i]), EntryOf(cs, keywords[j])))
      && (forall w, i :: w in cs && w !in keywords && 0 <= i < |keywords| ==>
            RanksAtLeast(EntryOf(cs, keywords[i]), EntryOf(cs, w)))
  {
    var words := Words(wc, Lower(text));
    var candidates := TextCandidates(wc, text);
    var items := FrequencyTable(candidates);
    var ranked := SortByRank(items);
    var top := PrefixSlice(ranked, maxKeywords);
    var keywords := Names(top);
    TopEntriesFacts(candidates, items, ranked, top);
    NamesAreCandidates(wc, text, top);
  }

  /** The words of entries drawn from the candidates are candidate words of the text. */
  lemma NamesAreCandidates(wc: WordClass, text: string, top: seq<Entry>)
    requires forall i :: 0 <= i < |top| ==> top[i].0 in TextCandidates(wc, text)
    ensures forall i :: 0 <= i < |top| ==>
      Names(top)[i] in Words(wc, Lower(text)) && IsCandidate(Names(top)[i]) && NoUpper(Names(top)[i])
  {
    forall i | 0 <= i < |top|
      ensures Names(top)[i] in Words(wc, Lower(text)) && IsCandidate(Names(top)[i]) && NoUpper(Names(top)[i])
    {
      assert Names(top)[i] == top[i].0;
    }
  }

  /** What the sorted, truncated table says about its words: they are distinct
      candidates, in rank order, and each outranks every candidate left out. */
  lemma TopEntriesFacts(ws: seq<string>, items: seq<Entry>, ranked: seq<Entry>, top: seq<Entry>)
    requires items == FrequencyTable(ws)
    requires ranked == SortByRank(items)
    requires |top| <= |ranked| && top == ranked[..|top|]
    ensures Distinct(Names(top))
    ensures forall i :: 0 <= i < |top| ==> top[i] == EntryOf(ws, top[i].0) && top[i].0 in ws
    ensures forall i, j :: 0 <= i < j < |top| ==> RanksAtLeast(top[i], top[j])
    ensures forall w, i :: w in ws && w !in Names(top) && 0 <= i < |top| ==>
      RanksAtLeast(top[i], EntryOf(ws, w))
  {
    SortByRankRanked(items);
    SortByRankNamesDistinct(items);
    TopKeepsOrder(ranked, top);
    TopAreEntries(ws, items, ranked, top);
    TopBeatsOmitted(ws, items, ranked, top);
  }

  /** A prefix of a ranking with distinct words is one too. */
  lemma TopKeepsOrder(ranked: seq<Entry>, top: seq<Entry>)
    requires Ranked(ranked) && Distinct(Names(ranked))
    requires |top| <= |ranked| && top == ranked[..|top|]
    ensures Ranked(top) && Distinct(Names(top))
  {
    assert Names(top) == Names(ranked)[..|top|];
  }

  /** The entries kept are rows of the frequency table. */
  lemma TopAreEntries(ws: seq<string>, items: seq<Entry>, ranked: seq<Entry>, top: seq<Entry>)
    requires items == FrequencyTable(ws)
    requires multiset(ranked) == multiset(items)
    requires |top| <= |ranked| && top == ranked[..|top|]
    ensures forall i :: 0 <= i < |top| ==> top[i] == EntryOf(ws, top[i].0) && top[i].0 in ws
  {
    RankedEntriesAreTable(ws, items, ranked);
    forall i | 0 <= i < |top| ensures top[i] == EntryOf(ws, top[i].0) && top[i].0 in ws {
      assert top[i] == ranked[i] && ranked[i] in ranked;
    }
  }

  /** Every entry of the sorted table is a word of `ws` with its count. */
  lemma RankedEntriesAreTable(ws: seq<string>, items: seq<Entry>, ranked: seq<Entry>)
    requires items == FrequencyTable(ws)
    requires multiset(ranked) == multiset(items)
    ensures forall e :: e in ranked ==> e == EntryOf(ws, e.0) && e.0 in ws
  {
    forall e | e in ranked ensures e == EntryOf(ws, e.0) && e.0 in ws {
      assert e in multiset(items);
      var m :| 0 <= m < |items| && items[m] == e;
      assert Names(items)[m] == e.0;
    }
  }

  /** A word left out of the prefix ranks no higher than any word kept. */
  lemma TopBeatsOmitted(ws: seq<string>, items: seq<Entry>, ranked: seq<Entry>, top: seq<Entry>)
    requires items == FrequencyTable(ws)
    requires multiset(ranked) == multiset(items) && Ranked(ranked)
    requires |top| <= |ranked| && top == ranked[..|top|]
    ensures forall w, i :: w in ws && w !in Names(top) && 0 <= i < |top| ==>
      RanksAtLeast(top[i], EntryOf(ws, w))
  {
    forall w, i | w in ws && w !in Names(top) && 0 <= i < |top|
      ensures RanksAtLeast(top[i], EntryOf(ws, w))
    {
      var p := PositionOf(ws, items, ranked, w);
      assert forall q :: 0 <= q < |top| ==> Names(top)[q] == top[q].0 != w;
      assert p >= |top|;
      assert top[i] == ranked[i];
    }
  }

  lemma PositionOf(ws: seq<string>, items: seq<Entry>, ranked: seq<Entry>, w: string) returns (p: nat)
    requires items == FrequencyTable(ws)
    requires multiset(ranked) == multiset(items)
    requires w in ws
    ensures p < |ranked| && ranked[p] == EntryOf(ws, w) && ranked[p].0 == w
  {
    assert w in Names(items);
    var m :| 0 <= m < |items| && Names(items)[m] == w;
    assert items[m] == EntryOf(ws, w);
    assert items[m] in multiset(ranked);
    p :| 0 <= p < |ranked| && ranked[p] == items[m];
  }
}
