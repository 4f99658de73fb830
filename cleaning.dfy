/** `TextProcessor.clean_text`: a fixed pipeline of five regular-expression
    substitutions followed by `strip()`, each substitution written out by hand. */
module Cleaning {
  import opened TextBasics

  /** The punctuation the second substitution keeps besides `\w` and `\s`:
      the class `[.,!?;:'"-]`. */
  predicate IsKeptPunctuation(c: char) {
    c == '.' || c == ',' || c == '!' || c == '?' || c == ';' || c == ':'
    || c == '\'' || c == '"' || c == '-'
  }

  /** The punctuation the last substitution pulls left over whitespace: `[.,!?;:]`. */
  predicate IsTightPunctuation(c: char) {
    c == '.' || c == ',' || c == '!' || c == '?' || c == ';' || c == ':'
  }

  /** What `[^\w\s.,!?;:'"-]` does not match. */
  predicate IsAllowed(wc: WordClass, c: char) {
    IsWordChar(wc, c) || IsSpace(c) || IsKeptPunctuation(c)
  }

  /** Every whitespace character of `s` is the plain space. */
  predicate OnlyBlanks(s: string) {
    forall c :: c in s && IsSpace(c) ==> c == ' '
  }

  /** Every character of `r` occurs in `s`. */
  predicate CharsFrom(r: string, s: string) {
    forall c :: c in r ==> c in s
  }

  /** No whitespace character stands right before one of `. , ! ? ; :`. */
  predicate NoSpaceBeforePunctuation(s: string) {
    forall i :: 0 <= i < |s| - 1 ==> !(IsSpace(s[i]) && IsTightPunctuation(s[i + 1]))
  }

  /** `re.sub(r'\s+', ' ', s)`: every maximal run of whitespace becomes one space. */
  function CollapseWhitespace(s: string): (r: string)
    ensures r == SqueezeSpaces(false, s)
    ensures |r| <= |s|
    ensures (r == []) == (s == [])
    ensures r != [] ==> (r[0] == ' ' <==> IsSpace(s[0]))
    ensures OnlyBlanks(r)
    ensures forall i :: 0 <= i < |r| - 1 ==> !(r[i] == ' ' && r[i + 1] == ' ')
  {
    if s == [] then []
    else if IsSpace(s[0]) then
      var t := TrimLeft(s);
      var rest := CollapseWhitespace(t);
      SqueezeAfterSpace(s[1..]);
      assert rest != [] ==> rest[0] != ' ';
      " " + rest
    else [s[0]] + CollapseWhitespace(s[1..])
  }

  /** The same substitution read one character at a time: a character that is
      not whitespace is kept, the first whitespace character of a run becomes a
      blank and the others of the run are dropped. `afterSpace` says whether
      the character before `s` was whitespace. */
  function SqueezeSpaces(afterSpace: bool, s: string): string
    decreases |s|
  {
    if s == [] then []
    else if !IsSpace(s[0]) then [s[0]] + SqueezeSpaces(false, s[1..])
    else if afterSpace then SqueezeSpaces(true, s[1..])
    else " " + SqueezeSpaces(true, s[1..])
  }

  /** Inside a run, the rest of the run is dropped. */
  lemma {:induction false} SqueezeAfterSpace(s: string)
    ensures SqueezeSpaces(true, s) == SqueezeSpaces(false, TrimLeft(s))
  {
    if s != [] && IsSpace(s[0]) {
      SqueezeAfterSpace(s[1..]);
    }
  }

  /** Collapsing whitespace loses no other character and invents none. */
  lemma {:induction false} CollapseWhitespaceKeepsText(s: string)
    ensures NonSpace(CollapseWhitespace(s)) == NonSpace(s)
  {
    if s != [] {
      if IsSpace(s[0]) {
        var t := TrimLeft(s);
        var k := |s| - |t|;
        assert s == s[..k] + t;
        NonSpaceConcat(s[..k], t);
        NonSpaceOfSpaces(s[..k]);
        CollapseWhitespaceKeepsText(t);
        NonSpaceConcat(" ", CollapseWhitespace(t));
      } else {
        assert s == [s[0]] + s[1..];
        NonSpaceConcat([s[0]], s[1..]);
        CollapseWhitespaceKeepsText(s[1..]);
        NonSpaceConcat([s[0]], CollapseWhitespace(s[1..]));
      }
    }
  }

  /** `re.sub(r'[^\w\s.,!?;:\'\"-]', '', s)`: drops every character outside the class. */
  function RemoveDisallowed(wc: WordClass, s: string): (r: string)
    ensures |r| <= |s|
    ensures forall i :: 0 <= i < |r| ==> IsAllowed(wc, r[i])
    ensures CharsFrom(r, s)
    ensures (forall i :: 0 <= i < |s| ==> IsAllowed(wc, s[i])) ==> r == s
  {
    if s == [] then []
    else
      assert s == [s[0]] + s[1..];
      (if IsAllowed(wc, s[0]) then [s[0]] else []) + RemoveDisallowed(wc, s[1..])
  }

  /** The kept characters stay in text order: removing from a concatenation
      is removing from each part. */
  lemma {:induction false} RemoveDisallowedConcat(wc: WordClass, a: string, b: string)
    ensures RemoveDisallowed(wc, a + b) == RemoveDisallowed(wc, a) + RemoveDisallowed(wc, b)
  {
    if a != [] {
      var head := if IsAllowed(wc, a[0]) then [a[0]] else [];
      ConcatTail(a, b);
      RemoveDisallowedUnfold(wc, a);
      RemoveDisallowedUnfold(wc, a + b);
      RemoveDisallowedConcat(wc, a[1..], b);
      ConcatAssoc(head, RemoveDisallowed(wc, a[1..]), RemoveDisallowed(wc, b));
    } else {
      assert a + b == b;
    }
  }

  /** Every character of the class is kept, as many times as `s` holds it. */
  lemma {:induction false} RemoveDisallowedCounts(wc: WordClass, s: string)
    ensures forall c :: IsAllowed(wc, c) ==> multiset(RemoveDisallowed(wc, s))[c] == multiset(s)[c]
  {
    if s != [] {
      RemoveDisallowedUnfold(wc, s);
      RemoveDisallowedCounts(wc, s[1..]);
      assert s == [s[0]] + s[1..];
    }
  }

  lemma RemoveDisallowedUnfold(wc: WordClass, s: string)
    requires s != []
    ensures RemoveDisallowed(wc, s) == (if IsAllowed(wc, s[0]) then [s[0]] else []) + RemoveDisallowed(wc, s[1..])
  {
  }

  /** `re.sub(r'["“”]', '"', s)`. */
  function NormalizeQuotes(s: string): (r: string)
    ensures |r| == |s|
    ensures forall i :: 0 <= i < |s| ==>
      r[i] == if s[i] == '"' || s[i] == '\U{201C}' || s[i] == '\U{201D}' then '"' else s[i]
  {
    seq(|s|, i requires 0 <= i < |s| =>
      if s[i] == '"' || s[i] == '\U{201C}' || s[i] == '\U{201D}' then '"' else s[i])
  }

  /** `re.sub(r'[''′]', "'", s)`. The pattern is two adjacent string literals,
      `r'['` and `'′]'`, so the class holds the prime sign U+2032 alone. */
  function NormalizeApostrophes(s: string): (r: string)
    ensures |r| == |s|
    ensures forall i :: 0 <= i < |s| ==> r[i] == if s[i] == '\U{2032}' then '\'' else s[i]
  {
    seq(|s|, i requires 0 <= i < |s| => if s[i] == '\U{2032}' then '\'' else s[i])
  }

  /** `re.sub(r'\s+([.,!?;:])', r'\1', s)`: a run of whitespace directly before
      one of `. , ! ? ; :` is deleted. The regex is tried at the first character
      of each run; when the run is not followed by such punctuation every later
      start inside the run fails the same way, so the whole run is kept. */
  function TightenPunctuation(s: string): (r: string)
    ensures r == DropSpaceBeforePunctuation(s)
    ensures |r| <= |s|
    ensures CharsFrom(r, s)
    ensures NoSpaceBeforePunctuation(r)
    ensures s != [] && !IsSpace(s[0]) ==> r != [] && r[0] == s[0]
  {
    if s == [] then []
    else if IsSpace(s[0]) then
      var k := |s| - |TrimLeft(s)|;
      if k < |s| && IsTightPunctuation(s[k]) then
        var rest := TightenPunctuation(s[k + 1..]);
        DropRunBeforePunctuation(s, k, rest);
        [s[k]] + rest
      else
        var rest := TightenPunctuation(s[k..]);
        KeepRunBeforeOther(s, k, rest);
        s[..k] + rest
    else
      var rest := TightenPunctuation(s[1..]);
      KeepFirst(s, rest);
      [s[0]] + rest
  }

  /** A leading run followed by one of `. , ! ? ; :` is dropped. */
  lemma DropRunBeforePunctuation(s: string, k: nat, rest: string)
    requires s != [] && IsSpace(s[0]) && k == |s| - |TrimLeft(s)|
    requires k < |s| && IsTightPunctuation(s[k])
    requires rest == DropSpaceBeforePunctuation(s[k + 1..]) && |rest| <= |s| - k - 1
    requires CharsFrom(rest, s[k + 1..]) && NoSpaceBeforePunctuation(rest)
    ensures [s[k]] + rest == DropSpaceBeforePunctuation(s) && |[s[k]] + rest| <= |s|
    ensures CharsFrom([s[k]] + rest, s) && NoSpaceBeforePunctuation([s[k]] + rest)
  {
    LeadingRun(s);
    KeepHead(s, k, rest);
  }

  /** A leading run followed by anything else is kept. */
  lemma KeepRunBeforeOther(s: string, k: nat, rest: string)
    requires s != [] && IsSpace(s[0]) && k == |s| - |TrimLeft(s)|
    requires !(k < |s| && IsTightPunctuation(s[k]))
    requires rest == DropSpaceBeforePunctuation(s[k..]) && |rest| <= |s| - k
    requires CharsFrom(rest, s[k..]) && NoSpaceBeforePunctuation(rest)
    requires s[k..] != [] && !IsSpace(s[k..][0]) ==> rest != [] && rest[0] == s[k..][0]
    ensures s[..k] + rest == DropSpaceBeforePunctuation(s) && |s[..k] + rest| <= |s|
    ensures CharsFrom(s[..k] + rest, s) && NoSpaceBeforePunctuation(s[..k] + rest)
  {
    LeadingRun(s);
    if k < |s| {
      HeadSplit(s, k, |s|);
    }
    KeepRun(s, k, rest);
  }

  /** A first character that is not whitespace is kept. */
  lemma KeepFirst(s: string, rest: string)
    requires s != [] && !IsSpace(s[0])
    requires rest == DropSpaceBeforePunctuation(s[1..]) && |rest| <= |s| - 1
    requires CharsFrom(rest, s[1..]) && NoSpaceBeforePunctuation(rest)
    ensures [s[0]] + rest == DropSpaceBeforePunctuation(s) && |[s[0]] + rest| <= |s|
    ensures CharsFrom([s[0]] + rest, s) && NoSpaceBeforePunctuation([s[0]] + rest)
  {
    DropUnfold(s);
    KeepHead(s, 0, rest);
  }

  /** The whitespace run at the start of `s` is directly followed by one of
      `. , ! ? ; :`. */
  predicate BeforePunctuation(s: string) {
    var t := TrimLeft(s);
    t != [] && IsTightPunctuation(t[0])
  }

  /** The tightening substitution read one character at a time: a whitespace
      character is dropped exactly when the whitespace run it stands in is
      directly followed by one of `. , ! ? ; :`; every other character is kept,
      in order. */
  function DropSpaceBeforePunctuation(s: string): string {
    if s == [] then []
    else (if IsSpace(s[0]) && BeforePunctuation(s) then [] else [s[0]]) + DropSpaceBeforePunctuation(s[1..])
  }

  /** Over the whitespace run `s[i..k]`, the character-wise reading drops the
      whole run or keeps the whole run. */
  lemma {:induction false} DropOverRun(s: string, i: nat, k: nat)
    requires i <= k <= |s|
    requires forall j :: i <= j < k ==> IsSpace(s[j])
    requires k == |s| || !IsSpace(s[k])
    decreases k - i
    ensures DropSpaceBeforePunctuation(s[i..])
      == (if k < |s| && IsTightPunctuation(s[k]) then [] else s[i..k]) + DropSpaceBeforePunctuation(s[k..])
  {
    if i < k {
      DropOverRun(s, i + 1, k);
      TrimLeftOfRun(s, i, k);
      DropRunStep(s, i, k);
    } else {
      assert s[i..k] == [];
    }
  }

  /** The whitespace run that `s` starts with, ending at `k`, is dropped when
      one of `. , ! ? ; :` follows it and kept otherwise. */
  lemma LeadingRun(s: string)
    requires s != [] && IsSpace(s[0])
    ensures var k := |s| - |TrimLeft(s)|;
      && 0 < k <= |s| && TrimLeft(s) == s[k..]
      && DropSpaceBeforePunctuation(s)
        == (if k < |s| && IsTightPunctuation(s[k]) then [] else s[..k]) + DropSpaceBeforePunctuation(s[k..])
      && (k < |s| && IsTightPunctuation(s[k]) ==>
            DropSpaceBeforePunctuation(s[k..]) == [s[k]] + DropSpaceBeforePunctuation(s[k + 1..]))
  {
    var k := |s| - |TrimLeft(s)|;
    DropOverRun(s, 0, k);
    assert s[0..] == s && s[0..k] == s[..k];
    if k < |s| && IsTightPunctuation(s[k]) {
      HeadSplit(s, k, |s|);
      DropUnfold(s[k..]);
    }
  }

  /** One character of the run. */
  lemma DropRunStep(s: string, i: nat, k: nat)
    requires i < k <= |s| && IsSpace(s[i]) && TrimLeft(s[i..]) == s[k..]
    requires DropSpaceBeforePunctuation(s[i + 1..])
      == (if k < |s| && IsTightPunctuation(s[k]) then [] else s[i + 1..k]) + DropSpaceBeforePunctuation(s[k..])
    ensures DropSpaceBeforePunctuation(s[i..])
      == (if k < |s| && IsTightPunctuation(s[k]) then [] else s[i..k]) + DropSpaceBeforePunctuation(s[k..])
  {
    var rest := DropSpaceBeforePunctuation(s[k..]);
    RunHead(s, i, k);
    DropUnfold(s[i..]);
    if !(k < |s| && IsTightPunctuation(s[k])) {
      ConcatAssoc([s[i]], s[i + 1..k], rest);
    }
  }

  /** The first character of the run, and what the run is followed by. */
  lemma RunHead(s: string, i: nat, k: nat)
    requires i < k <= |s| && TrimLeft(s[i..]) == s[k..]
    ensures s[i..] != [] && s[i..][0] == s[i] && s[i..][1..] == s[i + 1..]
    ensures s[i..k] == [s[i]] + s[i + 1..k]
    ensures BeforePunctuation(s[i..]) <==> k < |s| && IsTightPunctuation(s[k])
  {
    HeadSplit(s, i, k);
    RunFollow(s, i, k);
  }

  lemma RunFollow(s: string, i: nat, k: nat)
    requires i < k <= |s| && TrimLeft(s[i..]) == s[k..]
    ensures BeforePunctuation(s[i..]) <==> k < |s| && IsTightPunctuation(s[k])
  {
    assert k < |s| ==> s[k..][0] == s[k];
  }

  lemma DropUnfold(s: string)
    requires s != []
    ensures DropSpaceBeforePunctuation(s)
      == (if IsSpace(s[0]) && BeforePunctuation(s) then [] else [s[0]]) + DropSpaceBeforePunctuation(s[1..])
  {
  }

  /** Stripping the run `s[i..k]` leaves what follows it. */
  lemma {:induction false} TrimLeftOfRun(s: string, i: nat, k: nat)
    requires i <= k <= |s|
    requires forall j :: i <= j < k ==> IsSpace(s[j])
    requires k == |s| || !IsSpace(s[k])
    decreases k - i
    ensures TrimLeft(s[i..]) == s[k..]
  {
    if i < k {
      assert s[i..][0] == s[i] && s[i..][1..] == s[i + 1..];
      TrimLeftOfRun(s, i + 1, k);
    } else if k < |s| {
      assert s[k..][0] == s[k];
    }
  }

  /** Tightening drops only whitespace. */
  lemma {:induction false} DropKeepsText(s: string)
    ensures NonSpace(DropSpaceBeforePunctuation(s)) == NonSpace(s)
  {
    if s != [] {
      var head := if IsSpace(s[0]) && BeforePunctuation(s) then [] else [s[0]];
      DropKeepsText(s[1..]);
      NonSpaceConcat(head, DropSpaceBeforePunctuation(s[1..]));
      assert NonSpace(s) == (if IsSpace(s[0]) then [] else [s[0]]) + NonSpace(s[1..]);
    }
  }

  /** The character at `k`, followed by what was built from the part after it. */
  lemma KeepHead(s: string, k: nat, rest: string)
    requires k < |s| && |rest| <= |s| - k - 1 && CharsFrom(rest, s[k + 1..])
    requires NoSpaceBeforePunctuation(rest) && !IsSpace(s[k])
    ensures |[s[k]] + rest| <= |s| - k
    ensures CharsFrom([s[k]] + rest, s)
    ensures NoSpaceBeforePunctuation([s[k]] + rest)
  {
    SuffixChars(s, k + 1);
    NoSpaceBeforeConcat([s[k]], rest);
  }

  /** The whitespace run `s[..k]`, followed by what was built from the rest. */
  lemma KeepRun(s: string, k: nat, rest: string)
    requires k <= |s| && |rest| <= |s| - k && CharsFrom(rest, s[k..])
    requires NoSpaceBeforePunctuation(rest)
    requires forall i :: 0 <= i < k ==> IsSpace(s[i])
    requires rest == [] || !IsTightPunctuation(rest[0])
    ensures CharsFrom(s[..k] + rest, s)
    ensures NoSpaceBeforePunctuation(s[..k] + rest)
  {
    SuffixChars(s, k);
    NoSpaceBeforeConcat(s[..k], rest);
    forall c | c in s[..k] + rest ensures c in s {
      if c in s[..k] {
        var i :| 0 <= i < k && s[..k][i] == c;
        assert s[i] in s;
      }
    }
  }

  /** The curly quotes and the prime sign are not in the class kept by
      `RemoveDisallowed` (Python's `\w` does not hold them), so by the time the
      two normalising substitutions run there is nothing left for them to
      replace. */
  lemma NormalizationsIdle(wc: WordClass, s: string)
    requires !wc('\U{201C}') && !wc('\U{201D}') && !wc('\U{2032}')
    ensures NormalizeApostrophes(NormalizeQuotes(RemoveDisallowed(wc, s))) == RemoveDisallowed(wc, s)
  {
  }

  lemma NoSpaceBeforeConcat(a: string, b: string)
    requires NoSpaceBeforePunctuation(a) && NoSpaceBeforePunctuation(b)
    requires a == [] || b == [] || !(IsSpace(a[|a| - 1]) && IsTightPunctuation(b[0]))
    ensures NoSpaceBeforePunctuation(a + b)
  {
    var ab := a + b;
    forall i | 0 <= i < |ab| - 1 ensures !(IsSpace(ab[i]) && IsTightPunctuation(ab[i + 1])) {
      if i < |a| - 1 {
        assert ab[i] == a[i] && ab[i + 1] == a[i + 1];
      } else if i >= |a| {
        assert ab[i] == b[i - |a|] && ab[i + 1] == b[i - |a| + 1];
      }
    }
  }

  /** `TextProcessor.clean_text`. The empty text gives the empty text; otherwise
      the five substitutions run in order and the result is stripped. */
  function CleanText(wc: WordClass, text: string): (r: string)
    ensures text == [] ==> r == []
    ensures |r| <= |text|
    ensures r == [] || (!IsSpace(r[0]) && !IsSpace(r[|r| - 1]))
    ensures OnlyBlanks(r)
    ensures NoSpaceBeforePunctuation(r)
    ensures forall i :: 0 <= i < |r| ==>
      IsWordChar(wc, r[i]) || r[i] == ' ' || IsKeptPunctuation(r[i])
    ensures NonSpace(r) == NormalizeApostrophes(NormalizeQuotes(RemoveDisallowed(wc, NonSpace(text))))
  {
    CleanTextAll(wc, text);
    if text == [] then []
    else
      Strip(TightenPunctuation(NormalizeApostrophes(NormalizeQuotes(RemoveDisallowed(wc, CollapseWhitespace(text))))))
  }

  /** The facts `CleanText` promises, gathered stage by stage. */
  lemma CleanTextAll(wc: WordClass, text: string)
    ensures var r := Strip(TightenPunctuation(NormalizeApostrophes(NormalizeQuotes(RemoveDisallowed(wc, CollapseWhitespace(text))))));
      && (text == [] ==> r == [])
      && |r| <= |text|
      && (r == [] || (!IsSpace(r[0]) && !IsSpace(r[|r| - 1])))
      && OnlyBlanks(r)
      && NoSpaceBeforePunctuation(r)
      && (forall i :: 0 <= i < |r| ==> IsWordChar(wc, r[i]) || r[i] == ' ' || IsKeptPunctuation(r[i]))
      && NonSpace(r) == NormalizeApostrophes(NormalizeQuotes(RemoveDisallowed(wc, NonSpace(text))))
  {
    var s1 := CollapseWhitespace(text);
    var s2 := RemoveDisallowed(wc, s1);
    var s3 := NormalizeQuotes(s2);
    var s4 := NormalizeApostrophes(s3);
    var s5 := TightenPunctuation(s4);
    var r := Strip(s5);
    CleanTextFacts(wc, s1, s2, s3, s4, s5, r);
    CleanTextKeepsText(wc, text, s1, s2, s3, s4, s5, r);
  }

  /** The characters `clean_text` keeps besides whitespace: those of the text
      that the second substitution allows, normalised, in text order. */
  lemma CleanTextKeepsText(wc: WordClass, text: string, s1: string, s2: string, s3: string, s4: string, s5: string, r: string)
    requires s1 == CollapseWhitespace(text)
    requires s2 == RemoveDisallowed(wc, s1)
    requires s3 == NormalizeQuotes(s2)
    requires s4 == NormalizeApostrophes(s3)
    requires s5 == TightenPunctuation(s4)
    requires r == Strip(s5)
    ensures NonSpace(r) == NormalizeApostrophes(NormalizeQuotes(RemoveDisallowed(wc, NonSpace(text))))
  {
    NonSpaceStrip(s5);
    DropKeepsText(s4);
    NonSpaceNormalizeApostrophes(s3);
    NonSpaceNormalizeQuotes(s2);
    NonSpaceRemoveDisallowed(wc, s1);
    CollapseWhitespaceKeepsText(text);
  }

  lemma {:induction false} NonSpaceRemoveDisallowed(wc: WordClass, s: string)
    ensures NonSpace(RemoveDisallowed(wc, s)) == RemoveDisallowed(wc, NonSpace(s))
  {
    if s != [] {
      var head := if IsAllowed(wc, s[0]) then [s[0]] else [];
      var kept := if IsSpace(s[0]) then [] else [s[0]];
      RemoveDisallowedUnfold(wc, s);
      NonSpaceConcat(head, RemoveDisallowed(wc, s[1..]));
      NonSpaceRemoveDisallowed(wc, s[1..]);
      assert NonSpace(s) == kept + NonSpace(s[1..]);
      RemoveDisallowedConcat(wc, kept, NonSpace(s[1..]));
      if kept != [] {
        RemoveDisallowedUnfold(wc, kept);
        assert kept[1..] == [];
      }
    }
  }

  lemma NormalizeQuotesConcat(a: string, b: string)
    ensures NormalizeQuotes(a + b) == NormalizeQuotes(a) + NormalizeQuotes(b)
  {
    var ab := a + b;
    assert forall i :: |a| <= i < |ab| ==> ab[i] == b[i - |a|];
  }

  lemma NormalizeApostrophesConcat(a: string, b: string)
    ensures NormalizeApostrophes(a + b) == NormalizeApostrophes(a) + NormalizeApostrophes(b)
  {
    var ab := a + b;
    assert forall i :: |a| <= i < |ab| ==> ab[i] == b[i - |a|];
  }

  /** Quote normalisation maps whitespace to whitespace and nothing else to it. */
  lemma {:induction false} NonSpaceNormalizeQuotes(s: string)
    ensures NonSpace(NormalizeQuotes(s)) == NormalizeQuotes(NonSpace(s))
  {
    if s != [] {
      var c := s[0];
      var kept := if IsSpace(c) then [] else [c];
      assert s == [c] + s[1..];
      NormalizeQuotesConcat([c], s[1..]);
      NonSpaceConcat(NormalizeQuotes([c]), NormalizeQuotes(s[1..]));
      NonSpaceNormalizeQuotes(s[1..]);
      assert NonSpace(s) == kept + NonSpace(s[1..]);
      NormalizeQuotesConcat(kept, NonSpace(s[1..]));
      assert NonSpace(NormalizeQuotes([c])) == NormalizeQuotes(kept);
    }
  }

  /** The same for the apostrophe normalisation. */
  lemma {:induction false} NonSpaceNormalizeApostrophes(s: string)
    ensures NonSpace(NormalizeApostrophes(s)) == NormalizeApostrophes(NonSpace(s))
  {
    if s != [] {
      var c := s[0];
      var kept := if IsSpace(c) then [] else [c];
      assert s == [c] + s[1..];
      NormalizeApostrophesConcat([c], s[1..]);
      NonSpaceConcat(NormalizeApostrophes([c]), NormalizeApostrophes(s[1..]));
      NonSpaceNormalizeApostrophes(s[1..]);
      assert NonSpace(s) == kept + NonSpace(s[1..]);
      NormalizeApostrophesConcat(kept, NonSpace(s[1..]));
      assert NonSpace(NormalizeApostrophes([c])) == NormalizeApostrophes(kept);
    }
  }

  /** Every character of `s` is allowed, and every whitespace one is a blank. */
  predicate CleanChars(wc: WordClass, s: string) {
    forall c :: c in s ==> IsAllowed(wc, c) && (IsSpace(c) ==> c == ' ')
  }

  /** The invariants each stage of `CleanText` hands to the next. */
  lemma CleanTextFacts(wc: WordClass, s1: string, s2: string, s3: string, s4: string, s5: string, r: string)
    requires OnlyBlanks(s1)
    requires s2 == RemoveDisallowed(wc, s1)
    requires s3 == NormalizeQuotes(s2)
    requires s4 == NormalizeApostrophes(s3)
    requires s5 == TightenPunctuation(s4)
    requires r == Strip(s5)
    ensures OnlyBlanks(r)
    ensures NoSpaceBeforePunctuation(r)
    ensures forall i :: 0 <= i < |r| ==>
      IsWordChar(wc, r[i]) || r[i] == ' ' || IsKeptPunctuation(r[i])
  {
    NormalizedChars(wc, s1, s2, s3, s4);
    StripKeeps(s5);
    assert CleanChars(wc, r);
    forall i | 0 <= i < |r| ensures IsWordChar(wc, r[i]) || r[i] == ' ' || IsKeptPunctuation(r[i]) {
      assert r[i] in r;
    }
  }

  lemma NormalizedChars(wc: WordClass, s1: string, s2: string, s3: string, s4: string)
    requires OnlyBlanks(s1)
    requires s2 == RemoveDisallowed(wc, s1)
    requires s3 == NormalizeQuotes(s2)
    requires s4 == NormalizeApostrophes(s3)
    ensures CleanChars(wc, s4)
  {
    forall c | c in s4 ensures IsAllowed(wc, c) && (IsSpace(c) ==> c == ' ') {
      var i :| 0 <= i < |s4| && s4[i] == c;
      assert s2[i] in s2;
    }
  }

  /** `Strip` keeps a slice, so it keeps the character facts and the absence
      of whitespace before punctuation. */
  lemma StripKeeps(s: string)
    ensures CharsFrom(Strip(s), s)
    ensures NoSpaceBeforePunctuation(s) ==> NoSpaceBeforePunctuation(Strip(s))
  {
    var r := Strip(s);
    var o := StripOffset(s);
    forall i | 0 <= i < |r| ensures r[i] == s[o + i] {
    }
    forall c | c in r ensures c in s {
      var i :| 0 <= i < |r| && r[i] == c;
      assert s[o + i] in s;
    }
  }
}
