/** `TextProcessor.extract_structure` and `TextProcessor.format_for_summary`:
    find headings, bullet points and paragraphs, and lay them out as the
    "Main Topics:", "Key Points:" and "Content:" sections of a summary prompt. */
module Structure {
  import opened TextBasics

  /** `x` holds no newline. */
  predicate NoNewline(x: string) {
    '\n' !in x
  }

  /** Index of the first newline of `s`, or `|s|`. */
  function LineEnd(s: string): (n: nat)
    ensures n <= |s|
    ensures n < |s| ==> s[n] == '\n'
  {
    LineEndFrom(s, 0)
  }

  /** Index of the first newline of `s` at or after `i`, or `|s|`. */
  function LineEndFrom(s: string, i: nat): (n: nat)
    requires i <= |s|
    decreases |s| - i
    ensures i <= n <= |s|
    ensures n < |s| ==> s[n] == '\n'
  {
    if i == |s| || s[i] == '\n' then i else LineEndFrom(s, i + 1)
  }

  lemma {:induction false} LineEndFromNoNewline(s: string, i: nat)
    requires i <= |s|
    decreases |s| - i
    ensures forall k :: i <= k < LineEndFrom(s, i) ==> s[k] != '\n'
  {
    if i < |s| && s[i] != '\n' {
      LineEndFromNoNewline(s, i + 1);
    }
  }

  lemma {:induction false} LineEndFromAt(s: string, i: nat, m: nat)
    requires i <= m < |s| && s[m] == '\n'
    requires forall k :: i <= k < m ==> s[k] != '\n'
    decreases m - i
    ensures LineEndFrom(s, i) == m
  {
    if i < m {
      LineEndFromAt(s, i + 1, m);
    }
  }

  lemma LineEndNoNewline(s: string)
    ensures NoNewline(s[..LineEnd(s)])
  {
    LineEndFromNoNewline(s, 0);
    var n := LineEnd(s);
    forall c | c in s[..n] ensures c != '\n' {
      var k :| 0 <= k < n && s[..n][k] == c;
      assert s[k] == c;
    }
  }

  /** A text with no newline is a single line. */
  lemma LineEndOfLast(line: string)
    requires NoNewline(line)
    ensures LineEnd(line) == |line|
  {
  }

  lemma LineEndOfLine(line: string, rest: string)
    requires NoNewline(line)
    ensures LineEnd(line + "\n" + rest) == |line|
  {
    var t := line + "\n" + rest;
    forall k | 0 <= k < |line| ensures t[k] != '\n' {
      assert t[k] == line[k] && line[k] in line;
    }
    LineEndFromAt(t, 0, |line|);
  }

  /** A line (without its newline) that `^(?!\s*[-*•])[A-Z][^\n]+` accepts: an
      ASCII capital and at least one more character. The lookahead never
      rejects such a line, since a capital is neither whitespace nor a bullet. */
  predicate IsHeadingLine(line: string) {
    |line| >= 2 && IsAsciiUpper(line[0])
  }

  /** The heading the first line of `s` contributes: the line with its
      newline, or the whole text when it has no newline, exactly when the
      line is a heading line. */
  function LineHeading(s: string): (r: seq<string>)
    ensures |r| <= 1
    ensures r != [] <==> IsHeadingLine(s[..LineEnd(s)])
    ensures r != [] ==> r[0] == s[..LineEnd(s)] + (if LineEnd(s) < |s| then "\n" else "")
    ensures forall h :: h in r ==> HeadingForm(h, s)
  {
    var n := LineEnd(s);
    LineEndNoNewline(s);
    if IsHeadingLine(s[..n]) then
      if n < |s| then
        assert s[..n + 1][..n] == s[..n];
        [s[..n + 1]]
      else
        assert s[..n] == s;
        [s]
    else []
  }

  /** `re.findall(r'^(?!\s*[-*•])[A-Z][^\n]+(?:\n|$)', s, re.MULTILINE)`: the
      heading lines, each with its newline when it has one. */
  function Headings(s: string): (r: seq<string>)
    decreases |s|
    ensures forall h :: h in r ==> HeadingForm(h, s)
  {
    var n := LineEnd(s);
    if n < |s| then
      var later := Headings(s[n + 1..]);
      SuffixHeadingForm(s, n, later);
      LineHeading(s) + later
    else LineHeading(s)
  }

  /** `t` is a suffix of `s`. */
  predicate IsSuffix(t: string, s: string) {
    |t| <= |s| && t == s[|s| - |t|..]
  }

  lemma SuffixOfSuffix(t: string, u: string, s: string)
    requires IsSuffix(t, u) && IsSuffix(u, s)
    ensures IsSuffix(t, s)
  {
    assert u == s[|s| - |u|..];
    assert s[|s| - |u|..][|u| - |t|..] == s[|s| - |t|..];
  }

  /** What a heading found in `s` looks like: a capital, at least one more
      character, no newline but possibly a final one, and, without the final
      newline, the last line of `s`. */
  predicate HeadingForm(h: string, s: string) {
    && |h| >= 2 && IsAsciiUpper(h[0])
    && NoNewline(h[..|h| - 1])
    && (h[|h| - 1] == '\n' || IsSuffix(h, s))
  }

  /** Headings found after the first line keep their form in the whole text. */
  lemma SuffixHeadingForm(s: string, n: nat, hs: seq<string>)
    requires n < |s|
    requires forall h :: h in hs ==> HeadingForm(h, s[n + 1..])
    ensures forall h :: h in hs ==> HeadingForm(h, s)
  {
    var u := s[n + 1..];
    forall x | x in hs ensures HeadingForm(x, s) {
      assert HeadingForm(x, u);
      if x[|x| - 1] != '\n' {
        SuffixOfSuffix(x, u, s);
      }
    }
  }

  /** Each line is judged on its own: a terminated line contributes itself, with
      its newline, exactly when it is a heading line. */
  lemma HeadingsOfLine(line: string, rest: string)
    requires NoNewline(line)
    ensures Headings(line + "\n" + rest)
      == (if IsHeadingLine(line) then [line + "\n"] else []) + Headings(rest)
  {
    var s := line + "\n" + rest;
    LineEndOfLine(line, rest);
    assert s[..|line|] == line;
    assert s[..|line| + 1] == line + "\n";
    assert s[|line| + 1..] == rest;
  }

  /** The last line, without a newline after it, is judged like the others:
      it is a heading, as it stands, exactly when it is a heading line. */
  lemma HeadingsOfLastLine(line: string)
    requires NoNewline(line)
    ensures Headings(line) == (if IsHeadingLine(line) then [line] else [])
  {
    LineEndOfLast(line);
    assert line[..|line|] == line;
  }

  predicate IsBullet(c: char) { c == '-' || c == '*' || c == '\U{2022}' }

  /** The outcome of trying the bullet pattern at a line start: the captured
      text and the text after the line it ends on. */
  datatype BulletMatch = NoBullet | Bullet(content: string, rest: string)

  /** `^\s*[-*•]\s*([^\n]+)` tried at the start of `t`, which is a line start.
      Both `\s*` may run across newlines. The bullet must follow the leading
      whitespace run. The greedy `\s*` after it stops at a character that is
      not whitespace, and `[^\n]+` then runs to the end of that line. Only when
      the whitespace reaches the end of the text does `\s*` give characters
      back: `[^\n]+` then takes the last character of the run that is not a
      newline. */
  function BulletAt(t: string): (m: BulletMatch)
    ensures m.Bullet? ==> m.content != [] && NoNewline(m.content) && |m.rest| < |t|
  {
    var lead := TrimLeft(t);
    if lead == [] || !IsBullet(lead[0]) then NoBullet else ContentAt(lead[1..])
  }

  /** `\s*([^\n]+)` tried at the start of `u`. */
  function ContentAt(u: string): (m: BulletMatch)
    ensures m.Bullet? ==> m.content != [] && NoNewline(m.content) && |m.rest| < |u|
    ensures TrimLeft(u) != [] ==> m == RestOfLine(TrimLeft(u))
    ensures TrimLeft(u) == [] ==> (m.NoBullet? <==> forall j :: 0 <= j < |u| ==> u[j] == '\n')
    ensures TrimLeft(u) == [] && m.Bullet? ==>
      && m.content == [u[LastNotNewline(u)]] && IsSpace(m.content[0])
      && forall j :: 0 <= j < |m.rest| ==> m.rest[j] == '\n'
  {
    var v := TrimLeft(u);
    if v != [] then
      assert IsSpace('\n');
      RestOfLine(v)
    else
      var k := LastNotNewline(u);
      if k < 0 then NoBullet
      else Bullet([u[k]], if k + 1 < |u| then u[k + 2..] else [])
  }

  /** `[^\n]+` at the start of `v`, and the lines after it. */
  function RestOfLine(v: string): (m: BulletMatch)
    requires v != [] && v[0] != '\n'
    ensures m.Bullet? && m.content != [] && NoNewline(m.content) && |m.rest| < |v|
    ensures (m.content == v && m.rest == []) || v == m.content + "\n" + m.rest
  {
    var n := LineEnd(v);
    LineEndNoNewline(v);
    if n < |v| then
      SliceThree(v, n, n + 1);
      assert v[n..n + 1] == "\n";
      Bullet(v[..n], v[n + 1..])
    else
      assert v[..n] == v;
      Bullet(v[..n], [])
  }

  /** Index of the last character of `t` that is not a newline, or -1. */
  function LastNotNewline(t: string): (m: int)
    ensures -1 <= m < |t|
    ensures m >= 0 ==> t[m] != '\n'
    ensures forall j :: m < j < |t| ==> t[j] == '\n'
  {
    if t == [] then -1
    else if t[|t| - 1] != '\n' then |t| - 1
    else LastNotNewline(t[..|t| - 1])
  }

  /** Where the search for the next bullet resumes: at the line start after
      the match, or after the current line when there is no match. */
  function ResumeAt(t: string, m: BulletMatch): (u: string)
    requires m.Bullet? ==> |m.rest| < |t|
    ensures t != [] ==> |u| < |t|
    ensures m.Bullet? ==> u == m.rest
    ensures m.NoBullet? ==> (LineEnd(t) == |t| && u == []) || t == t[..LineEnd(t)] + "\n" + u
  {
    if m.Bullet? then m.rest
    else
      var n := LineEnd(t);
      if n < |t| then
        SliceThree(t, n, n + 1);
        assert t[n..n + 1] == "\n";
        t[n + 1..]
      else []
  }

  /** `re.findall(r'^\s*[-*•]\s*([^\n]+)', t, re.MULTILINE)`: the pattern is
      tried at each line start; after a match the search resumes at the next
      line start past it, after a failure at the next line start. */
  function BulletPoints(t: string): (r: seq<string>)
    decreases |t|
    ensures forall b :: b in r ==> b != [] && NoNewline(b)
  {
    if t == [] then []
    else
      var m := BulletAt(t);
      var rest := BulletPoints(ResumeAt(t, m));
      if m.Bullet? then
        BulletsCons(m.content, rest);
        [m.content] + rest
      else rest
  }

  lemma BulletsCons(c: string, rest: seq<string>)
    requires c != [] && NoNewline(c)
    requires forall b :: b in rest ==> b != [] && NoNewline(b)
    ensures forall b :: b in [c] + rest ==> b != [] && NoNewline(b)
  {
    assert forall b :: b in [c] + rest ==> b == c || b in rest;
  }

  lemma {:induction false} TrimLeftConcat(a: string, b: string)
    requires TrimLeft(a) != []
    ensures TrimLeft(a + b) == TrimLeft(a) + b
  {
    ConcatTail(a, b);
    if IsSpace(a[0]) {
      TrimLeftConcat(a[1..], b);
    }
  }

  lemma RestOfLineOfLine(v: string, rest: string)
    requires v != [] && v[0] != '\n' && NoNewline(v)
    ensures RestOfLine(v + "\n" + rest) == Bullet(v, rest)
  {
    var t := v + "\n" + rest;
    LineEndOfLine(v, rest);
    assert t[..|v|] == v;
    assert t[|v| + 1..] == rest;
  }

  lemma ContentAtOfLine(after: string, rest: string)
    requires NoNewline(after) && TrimLeft(after) != []
    ensures ContentAt(after + "\n" + rest) == Bullet(TrimLeft(after), rest)
  {
    var v := TrimLeft(after);
    TrimLeftOfLine(after, rest);
    TrimLeftNoNewline(after);
    assert IsSpace('\n');
    RestOfLineOfLine(v, rest);
  }

  lemma TrimLeftOfLine(line: string, rest: string)
    requires TrimLeft(line) != []
    ensures TrimLeft(line + "\n" + rest) == TrimLeft(line) + "\n" + rest
  {
    ConcatAssoc(line, "\n", rest);
    TrimLeftConcat(line, "\n" + rest);
    ConcatAssoc(TrimLeft(line), "\n", rest);
  }

  /** A whitespace prefix makes no difference to stripping. */
  lemma {:induction false} TrimLeftOfSpaces(a: string, b: string)
    requires AllSpace(a)
    decreases |a|
    ensures TrimLeft(a + b) == TrimLeft(b)
  {
    if a == [] {
      assert a + b == b;
    } else {
      assert a[0] in a;
      ConcatTail(a, b);
      SuffixChars(a, 1);
      TrimLeftOfSpaces(a[1..], b);
    }
  }

  /** Stripping leaves nothing exactly from whitespace. */
  lemma BlankIsSpace(s: string)
    requires TrimLeft(s) == []
    ensures AllSpace(s)
  {
    AllSpaceByIndex(s);
  }

  /** Starting inside the leading whitespace strips to the same text. */
  lemma TrimLeftOfSuffix(s: string, i: nat)
    requires i <= |s| - |TrimLeft(s)|
    ensures TrimLeft(s[i..]) == TrimLeft(s)
  {
    SplitAt(s, i);
    AllSpaceByIndex(s[..i]);
    TrimLeftOfSpaces(s[..i], s[i..]);
  }

  lemma TrimLeftNoNewline(s: string)
    requires NoNewline(s)
    ensures NoNewline(TrimLeft(s))
  {
    SuffixChars(s, |s| - |TrimLeft(s)|);
  }

  lemma TailNoNewline(s: string)
    requires s != [] && NoNewline(s)
    ensures NoNewline(s[1..])
  {
    SuffixChars(s, 1);
  }

  /** An ordinary bullet line, with text after the bullet, contributes that
      text and nothing else. */
  lemma BulletPointsOfBulletLine(line: string, rest: string)
    requires NoNewline(line)
    requires TrimLeft(line) != [] && IsBullet(TrimLeft(line)[0])
    requires TrimLeft(TrimLeft(line)[1..]) != []
    ensures BulletPoints(line + "\n" + rest)
      == [TrimLeft(TrimLeft(line)[1..])] + BulletPoints(rest)
  {
    var t := line + "\n" + rest;
    var lead := TrimLeft(line);
    BulletAtOfBulletLine(line, rest);
    assert t != [];
  }

  lemma BulletAtOfBulletLine(line: string, rest: string)
    requires NoNewline(line)
    requires TrimLeft(line) != [] && IsBullet(TrimLeft(line)[0])
    requires TrimLeft(TrimLeft(line)[1..]) != []
    ensures BulletAt(line + "\n" + rest) == Bullet(TrimLeft(TrimLeft(line)[1..]), rest)
  {
    var lead := TrimLeft(line);
    TrimLeftOfLine(line, rest);
    ConcatAssoc(lead, "\n", rest);
    ConcatTail(lead, "\n" + rest);
    ConcatAssoc(lead[1..], "\n", rest);
    TrimLeftNoNewline(line);
    TailNoNewline(lead);
    ContentAtOfLine(lead[1..], rest);
  }

  /** A line whose first non-whitespace character is not a bullet
      contributes nothing: the search goes on at the next line. */
  lemma BulletPointsOfPlainLine(line: string, rest: string)
    requires NoNewline(line)
    requires TrimLeft(line) != [] && !IsBullet(TrimLeft(line)[0])
    ensures BulletPoints(line + "\n" + rest) == BulletPoints(rest)
  {
    var t := line + "\n" + rest;
    TrimLeftOfLine(line, rest);
    assert TrimLeft(t)[0] == TrimLeft(line)[0];
    LineEndOfLine(line, rest);
    assert t[|line| + 1..] == rest;
  }

  /** The same for the last line, without a newline after it. */
  lemma BulletPointsOfLastPlainLine(line: string)
    requires NoNewline(line)
    requires TrimLeft(line) != [] && !IsBullet(TrimLeft(line)[0])
    ensures BulletPoints(line) == []
  {
    LineEndOfLast(line);
  }

  /** A last line that is a bullet line, with text after the bullet and no
      newline after it, contributes that text. */
  lemma BulletPointsOfLastBulletLine(line: string)
    requires NoNewline(line)
    requires TrimLeft(line) != [] && IsBullet(TrimLeft(line)[0])
    requires TrimLeft(TrimLeft(line)[1..]) != []
    ensures BulletPoints(line) == [TrimLeft(TrimLeft(line)[1..])]
  {
    var lead := TrimLeft(line);
    var v := TrimLeft(lead[1..]);
    TrimLeftNoNewline(line);
    TailNoNewline(lead);
    TrimLeftNoNewline(lead[1..]);
    RestOfLastLine(v);
    assert BulletAt(line) == Bullet(v, []);
  }

  /** On the last line, `[^\n]+` captures the whole line. */
  lemma RestOfLastLine(v: string)
    requires v != [] && NoNewline(v)
    ensures v[0] != '\n' && RestOfLine(v) == Bullet(v, [])
  {
    assert v[0] in v;
    LineEndOfLast(v);
    assert v[..|v|] == v;
  }

  /** A blank line contributes nothing of its own. When a bullet follows
      it, the match starts at the blank line but captures what the bullet
      line alone would: the result is that of the lines after it. */
  lemma BulletPointsOfBlankLine(blank: string, rest: string)
    requires NoNewline(blank) && AllSpace(blank)
    ensures BulletPoints(blank + "\n" + rest) == BulletPoints(rest)
  {
    var t := blank + "\n" + rest;
    assert AllSpace(blank + "\n");
    TrimLeftOfSpaces(blank + "\n", rest);
    assert BulletAt(t) == BulletAt(rest);
    LineEndOfLine(blank, rest);
    assert t[|blank| + 1..] == rest;
  }

  /** A text of whitespace only has no bullet points. */
  lemma {:induction false} BulletPointsOfBlank(t: string)
    requires AllSpace(t)
    decreases |t|
    ensures BulletPoints(t) == []
  {
    if t != [] {
      TrimLeftOfSpaces(t, []);
      assert t + [] == t;
      var n := LineEnd(t);
      if n < |t| {
        SuffixChars(t, n + 1);
        BulletPointsOfBlank(t[n + 1..]);
      }
    }
  }

  /** A bullet with only whitespace after it on its line takes its text from
      the next line that is not blank, since the `\s*` after the bullet runs
      across the newlines. The search then goes on after that line. */
  lemma BulletPointsOfMarkerLine(line: string, rest: string)
    requires NoNewline(line)
    requires TrimLeft(line) != [] && IsBullet(TrimLeft(line)[0])
    requires TrimLeft(TrimLeft(line)[1..]) == []
    requires TrimLeft(rest) != []
    ensures TrimLeft(rest)[0] != '\n'
    ensures BulletPoints(line + "\n" + rest)
      == [RestOfLine(TrimLeft(rest)).content] + BulletPoints(RestOfLine(TrimLeft(rest)).rest)
  {
    BulletAtOfMarkerLine(line, rest);
    assert line + "\n" + rest != [];
  }

  lemma BulletAtOfMarkerLine(line: string, rest: string)
    requires NoNewline(line)
    requires TrimLeft(line) != [] && IsBullet(TrimLeft(line)[0])
    requires TrimLeft(TrimLeft(line)[1..]) == []
    requires TrimLeft(rest) != []
    ensures TrimLeft(rest)[0] != '\n'
    ensures BulletAt(line + "\n" + rest) == RestOfLine(TrimLeft(rest))
  {
    assert IsSpace('\n');
    var lead := TrimLeft(line);
    var t := line + "\n" + rest;
    var x := lead[1..] + "\n" + rest;
    TrimLeftOfLine(line, rest);
    MarkerTail(lead, rest);
    assert TrimLeft(t)[0] == lead[0];
    assert TrimLeft(t)[1..] == x;
    assert BulletAt(t) == ContentAt(x);
  }

  /** Past the bullet, the whitespace of its line and the newline are skipped. */
  lemma MarkerTail(lead: string, rest: string)
    requires lead != [] && TrimLeft(lead[1..]) == []
    ensures (lead + "\n" + rest)[1..] == lead[1..] + "\n" + rest
    ensures TrimLeft(lead[1..] + "\n" + rest) == TrimLeft(rest)
  {
    ConcatAssoc(lead, "\n", rest);
    ConcatTail(lead, "\n" + rest);
    ConcatAssoc(lead[1..], "\n", rest);
    BlankIsSpace(lead[1..]);
    assert IsSpace('\n');
    assert AllSpace(lead[1..] + "\n");
    TrimLeftOfSpaces(lead[1..] + "\n", rest);
  }

  /** When only whitespace follows the bullet up to the end of the text, the
      greedy `\s*` gives back one character: the capture is the last
      whitespace character that is not a newline, and there is none when
      only newlines follow the bullet. */
  lemma BulletPointsOfTrailingMarker(t: string)
    requires TrimLeft(t) != [] && IsBullet(TrimLeft(t)[0])
    requires TrimLeft(TrimLeft(t)[1..]) == []
    ensures var u := TrimLeft(t)[1..];
      BulletPoints(t) == if LastNotNewline(u) < 0 then [] else [[u[LastNotNewline(u)]]]
  {
    if LastNotNewline(TrimLeft(t)[1..]) < 0 {
      TrailingNewlines(t);
    } else {
      TrailingSpace(t);
    }
  }

  /** Backtracking gives back the last whitespace character that is not a
      newline; only newlines, with no bullet point, come after it. */
  lemma TrailingSpace(t: string)
    requires TrimLeft(t) != [] && IsBullet(TrimLeft(t)[0])
    requires TrimLeft(TrimLeft(t)[1..]) == []
    requires LastNotNewline(TrimLeft(t)[1..]) >= 0
    ensures var u := TrimLeft(t)[1..];
      BulletPoints(t) == [[u[LastNotNewline(u)]]]
  {
    var u := TrimLeft(t)[1..];
    var m := BulletAt(t);
    assert m == ContentAt(u);
    BulletPointsStep(t);
    assert m.Bullet?;
    AllSpaceByIndex(m.rest);
    BulletPointsOfBlank(m.rest);
  }

  /** Only newlines after the bullet: no match, here or at a later line start. */
  lemma {:induction false} TrailingNewlines(t: string)
    requires TrimLeft(t) != [] && IsBullet(TrimLeft(t)[0])
    requires TrimLeft(TrimLeft(t)[1..]) == []
    requires LastNotNewline(TrimLeft(t)[1..]) < 0
    decreases |t|
    ensures BulletPoints(t) == []
  {
    var lead := TrimLeft(t);
    var u := lead[1..];
    var m := BulletAt(t);
    assert m == ContentAt(u);
    BulletPointsStep(t);
    var n := LineEnd(t);
    if n < |t| {
      assert ResumeAt(t, m) == t[n + 1..];
      if n < |t| - |lead| {
        TrimLeftOfSuffix(t, n + 1);
        TrailingNewlines(t[n + 1..]);
      } else {
        BlankIsSpace(u);
        TrailOfMarker(t, n);
        BulletPointsOfBlank(t[n + 1..]);
      }
    }
  }

  /** One step of `findall`: the match tried at the start of `t`, then the
      search from where it resumes. */
  lemma BulletPointsStep(t: string)
    requires t != []
    ensures BulletPoints(t)
      == (if BulletAt(t).Bullet? then [BulletAt(t).content] else []) + BulletPoints(ResumeAt(t, BulletAt(t)))
  {
  }

  /** Past the bullet at the start of `TrimLeft(t)`, `t` holds what follows
      the bullet. */
  lemma TrailOfMarker(t: string, n: nat)
    requires TrimLeft(t) != [] && AllSpace(TrimLeft(t)[1..])
    requires |t| - |TrimLeft(t)| <= n < |t| && t[n] == '\n' && IsBullet(TrimLeft(t)[0])
    ensures AllSpace(t[n + 1..])
  {
    var lead := TrimLeft(t);
    var p := |t| - |lead|;
    assert t[p] == lead[0];
    var w := t[n + 1..];
    forall k | 0 <= k < |w| ensures IsSpace(w[k]) {
      SuffixAt(t, n + 1, n + 1 + k);
      SuffixAt(t, p, n + 1 + k);
      assert lead[1..][n - p + k] == lead[n + 1 + k - p];
      assert lead[1..][n - p + k] in lead[1..];
    }
    AllSpaceByIndex(w);
  }

  /** The index just past the run of whitespace that starts at `i`. */
  function RunEnd(s: string, i: nat): (e: nat)
    requires i <= |s|
    ensures i <= e <= |s|
    ensures forall k :: i <= k < e ==> IsSpace(s[k])
    ensures e < |s| ==> !IsSpace(s[e])
  {
    var t := TrimLeft(s[i..]);
    assert forall k :: i <= k < |s| - |t| ==> s[k] == s[i..][k - i];
    |s| - |t|
  }

  /** Index of the last newline of `t`, or -1. */
  function LastNewline(t: string): (m: int)
    ensures -1 <= m < |t|
    ensures m >= 0 ==> t[m] == '\n'
    ensures forall k :: m < k < |t| ==> t[k] != '\n'
  {
    if t == [] then -1
    else if t[|t| - 1] == '\n' then |t| - 1
    else LastNewline(t[..|t| - 1])
  }

  /** `\n\s*\n` matches at `i`: a newline whose following whitespace run holds
      another newline. */
  predicate IsSeparatorAt(s: string, i: nat) {
    i < |s| && s[i] == '\n' && LastNewline(s[i + 1..RunEnd(s, i + 1)]) >= 0
  }

  /** The first separator at or after `k`, or `|s|`. */
  function NextSeparator(s: string, k: nat): (i: nat)
    decreases |s| - k
    ensures (k <= i < |s| && IsSeparatorAt(s, i)) || i == |s|
    ensures forall j :: k <= j < i ==> !IsSeparatorAt(s, j)
  {
    if k >= |s| then |s| else if IsSeparatorAt(s, k) then k else NextSeparator(s, k + 1)
  }

  /** Where the separator at `i` ends: the greedy `\s*` backs off to the last
      newline of the whitespace run, and the match ends just after it. */
  function SeparatorEnd(s: string, i: nat): (e: nat)
    requires IsSeparatorAt(s, i)
    ensures i + 2 <= e <= |s| && s[e - 1] == '\n'
    ensures forall k :: i <= k < e ==> IsSpace(s[k])
  {
    var run := RunEnd(s, i + 1);
    var m := LastNewline(s[i + 1..run]);
    assert s[i + 1 + m] == s[i + 1..run][m];
    assert IsSpace(s[i]);
    i + 2 + m
  }

  /** `re.split(r'\n\s*\n', s)`. */
  function SplitParagraphs(s: string): (r: seq<string>)
    decreases |s|
    ensures |r| >= 1
    ensures |r[0]| <= |s| && r[0] == s[..|r[0]|]
  {
    var i := NextSeparator(s, 0);
    if i == |s| then [s]
    else [s[..i]] + SplitParagraphs(s[SeparatorEnd(s, i)..])
  }

  /** Text that `\n\s*\n` matches in full: whitespace of two or more
      characters that starts and ends with a newline. */
  predicate IsParagraphBreak(g: string) {
    |g| >= 2 && g[0] == '\n' && g[|g| - 1] == '\n' && AllSpace(g)
  }

  /** `\n\s*\n` matches nowhere in `p`: between any two of its newlines
      there is a character that is not whitespace. */
  predicate NoSeparator(p: string) {
    forall j, k :: 0 <= j < k < |p| && p[j] == '\n' && p[k] == '\n' ==> !AllSpace(p[j + 1..k])
  }

  /** The whitespace `p` ends with holds no newline. */
  predicate NoNewlineAtEnd(p: string) {
    NoNewline(p[|TrimRight(p)|..])
  }

  /** The whitespace `p` starts with holds no newline. */
  predicate NoNewlineAtStart(p: string) {
    NoNewline(p[..|p| - |TrimLeft(p)|])
  }

  /** The pieces of a paragraph split around the breaks that were cut out:
      no piece holds a break; the whitespace a piece ends with before a break,
      or starts with after one, holds no newline, since the split takes every
      such newline into the break; and a piece between two breaks is not
      blank, since two breaks with only whitespace between them are one. */
  predicate ParagraphPieces(r: seq<string>) {
    forall i :: 0 <= i < |r| ==> PieceShape(r[i], i > 0, i < |r| - 1)
  }

  /** The shape of one piece, given whether a break comes before it and
      whether one comes after it. */
  predicate PieceShape(p: string, afterBreak: bool, beforeBreak: bool) {
    && NoSeparator(p)
    && (beforeBreak ==> NoNewlineAtEnd(p))
    && (afterBreak ==> NoNewlineAtStart(p))
    && (afterBreak && beforeBreak ==> TrimLeft(p) != [])
  }

  /** Two newlines with only whitespace between them make a separator at the
      first. */
  lemma SeparatorFrom(s: string, j: nat, k: nat)
    requires j < k < |s| && s[j] == '\n' && s[k] == '\n'
    requires forall x :: j < x < k ==> IsSpace(s[x])
    ensures IsSeparatorAt(s, j)
  {
    var e := RunEnd(s, j + 1);
    assert IsSpace(s[k]);
    assert k < e;
    assert s[j + 1..e][k - j - 1] == '\n';
  }

  /** Where there is no separator, every pair of newlines has something other
      than whitespace between them. */
  lemma NotSeparator(s: string, j: nat, k: nat)
    requires j < k < |s| && s[j] == '\n' && s[k] == '\n'
    requires !IsSeparatorAt(s, j)
    ensures !AllSpace(s[j + 1..k])
  {
    var g := s[j + 1..k];
    if AllSpace(g) {
      forall x | j < x < k
        ensures IsSpace(s[x])
      {
        assert g[x - j - 1] == s[x];
        assert g[x - j - 1] in g;
      }
      SeparatorFrom(s, j, k);
      assert false;
    }
  }

  /** The text before the first separator holds none. */
  lemma HeadNoSeparator(s: string, i: nat)
    requires i == NextSeparator(s, 0)
    ensures NoSeparator(s[..i])
  {
    var p := s[..i];
    forall j, k | 0 <= j < k < |p| && p[j] == '\n' && p[k] == '\n'
      ensures !AllSpace(p[j + 1..k])
    {
      assert p[j] == s[j] && p[k] == s[k];
      assert !IsSeparatorAt(s, j);
      NotSeparator(s, j, k);
      SliceOfPrefix(s, i, j + 1, k);
    }
  }

  /** The whitespace the text ends with before its first separator holds no
      newline: such a newline would start an earlier separator. */
  lemma HeadTrailingSpace(s: string, i: nat)
    requires i == NextSeparator(s, 0) < |s|
    ensures NoNewlineAtEnd(s[..i])
  {
    var p := s[..i];
    var t := |TrimRight(p)|;
    forall x | t <= x < |p|
      ensures p[x] != '\n'
    {
      SpaceBeforeHead(s, i, t, x);
    }
    NoNewlineFrom(p, t);
  }

  lemma NoNewlineFrom(p: string, t: nat)
    requires t <= |p|
    requires forall x :: t <= x < |p| ==> p[x] != '\n'
    ensures NoNewline(p[t..])
  {
    assert forall y :: 0 <= y < |p[t..]| ==> p[t..][y] == p[t + y];
  }

  lemma SpaceBeforeHead(s: string, i: nat, t: nat, x: nat)
    requires i == NextSeparator(s, 0) < |s|
    requires t == |TrimRight(s[..i])| <= x < i
    ensures s[x] != '\n'
  {
    var p := s[..i];
    assert !IsSeparatorAt(s, x);
    forall y | x < y < i
      ensures IsSpace(s[y])
    {
      assert s[y] == p[y];
    }
    if s[x] == '\n' {
      SeparatorFrom(s, x, i);
      assert false;
    }
  }

  /** Past the end of a break, the whitespace that follows holds no newline:
      the break reaches the last newline of its whitespace run. */
  lemma AfterBreak(s: string, i: nat, n: nat)
    requires IsSeparatorAt(s, i)
    requires SeparatorEnd(s, i) + n <= |s|
    requires forall y :: SeparatorEnd(s, i) <= y < SeparatorEnd(s, i) + n ==> IsSpace(s[y])
    ensures forall y :: SeparatorEnd(s, i) <= y < SeparatorEnd(s, i) + n ==> s[y] != '\n'
  {
    var run := RunEnd(s, i + 1);
    var m := LastNewline(s[i + 1..run]);
    var e := SeparatorEnd(s, i);
    assert e == i + 2 + m;
    assert e + n <= run;
    forall y | e <= y < e + n
      ensures s[y] != '\n'
    {
      assert s[y] == s[i + 1..run][y - i - 1];
    }
  }

  /** Text that follows a break starts with whitespace that holds no newline. */
  lemma StartAfterBreak(s: string, i: nat)
    requires IsSeparatorAt(s, i)
    ensures NoNewlineAtStart(s[SeparatorEnd(s, i)..])
  {
    var e := SeparatorEnd(s, i);
    var u := s[e..];
    var lead := |u| - |TrimLeft(u)|;
    forall y | e <= y < e + lead
      ensures IsSpace(s[y])
    {
      SuffixAt(s, e, y);
    }
    AfterBreak(s, i, lead);
    forall y | 0 <= y < lead
      ensures u[y] != '\n'
    {
      SuffixAt(s, e, e + y);
    }
    NoNewlinePrefix(u, lead);
  }

  /** A prefix of a text whose leading whitespace holds no newline has the
      same property. */
  lemma NoNewlineAtStartPrefix(u: string, q: string)
    requires |q| <= |u| && q == u[..|q|]
    requires NoNewlineAtStart(u)
    ensures NoNewlineAtStart(q)
  {
    var lu := |u| - |TrimLeft(u)|;
    var lq := |q| - |TrimLeft(q)|;
    assert lu < |u| ==> TrimLeft(u)[0] == u[lu];
    assert lu < |q| ==> q[lu] == u[lu];
    assert lq <= lu;
    forall y | 0 <= y < lq
      ensures q[y] != '\n'
    {
      assert q[y] == u[..lu][y];
      assert u[..lu][y] in u[..lu];
    }
    NoNewlinePrefix(q, lq);
  }

  lemma NoNewlinePrefix(p: string, n: nat)
    requires n <= |p|
    requires forall y :: 0 <= y < n ==> p[y] != '\n'
    ensures NoNewline(p[..n])
  {
    assert forall y :: 0 <= y < n ==> p[..n][y] == p[y];
  }

  /** A piece between two breaks is not blank: a blank one would leave two
      breaks with only whitespace between them. */
  lemma NextNotBlank(s: string, i: nat)
    requires IsSeparatorAt(s, i)
    requires |SplitParagraphs(s[SeparatorEnd(s, i)..])| >= 2
    ensures TrimLeft(SplitParagraphs(s[SeparatorEnd(s, i)..])[0]) != []
  {
    var e := SeparatorEnd(s, i);
    var u := s[e..];
    var i2 := NextSeparator(u, 0);
    assert i2 < |u|;
    var q := u[..i2];
    assert SplitParagraphs(u)[0] == q;
    assert s[e + i2] == '\n';
    if TrimLeft(q) == [] {
      forall z | e <= z < e + i2 + 1
        ensures IsSpace(s[z])
      {
        if z < e + i2 {
          assert s[z] == q[z - e];
        }
      }
      AfterBreak(s, i, i2 + 1);
      assert false;
    }
  }

  /** The text a separator match spans is a break, and cutting it out leaves
      the text on either side. */
  lemma BreakAt(s: string, i: nat)
    requires IsSeparatorAt(s, i)
    ensures var e := SeparatorEnd(s, i);
      IsParagraphBreak(s[i..e]) && s == s[..i] + s[i..e] + s[e..]
  {
    var e := SeparatorEnd(s, i);
    var g := s[i..e];
    assert g[0] == s[i] && g[|g| - 1] == s[e - 1];
    forall c | c in g ensures IsSpace(c) {
      var y :| 0 <= y < |g| && g[y] == c;
      assert g[y] == s[i + y];
    }
    assert IsParagraphBreak(g);
    SliceThree(s, i, e);
  }

  /** The first piece and the rest of the split put together. */
  lemma ParagraphPiecesCons(head: string, rest: seq<string>)
    requires NoSeparator(head) && NoNewlineAtEnd(head)
    requires ParagraphPieces(rest) && rest != []
    requires NoNewlineAtStart(rest[0])
    requires |rest| >= 2 ==> TrimLeft(rest[0]) != []
    ensures ParagraphPieces([head] + rest)
  {
    var r := [head] + rest;
    forall i | 0 <= i < |r|
      ensures PieceShape(r[i], i > 0, i < |r| - 1)
    {
      if i == 0 {
        assert r[0] == head;
      } else if i == 1 {
        assert r[1] == rest[0];
        assert PieceShape(rest[0], false, |rest| > 1);
      } else {
        assert r[i] == rest[i - 1];
        assert PieceShape(rest[i - 1], i - 1 > 0, i - 1 < |rest| - 1);
      }
    }
  }

  /** The breaks `re.split` cuts out: each is a full match of `\n\s*\n`,
      and the pieces with the breaks between them give back `s`. */
  predicate ParagraphBreaks(s: string, gaps: seq<string>) {
    && |gaps| == |SplitParagraphs(s)| - 1
    && (forall g :: g in gaps ==> IsParagraphBreak(g))
    && Interleave(SplitParagraphs(s), gaps) == s
  }

  /** `re.split(r'\n\s*\n', s)` cuts `s` at breaks: the text is its pieces
      joined by the breaks that were cut out. */
  lemma {:induction false} SplitParagraphsRebuild(s: string) returns (gaps: seq<string>)
    decreases |s|
    ensures ParagraphBreaks(s, gaps)
  {
    var i := NextSeparator(s, 0);
    if i == |s| {
      gaps := [];
    } else {
      var e := SeparatorEnd(s, i);
      var rest := SplitParagraphs(s[e..]);
      var more := SplitParagraphsRebuild(s[e..]);
      var g := s[i..e];
      gaps := [g] + more;
      BreakAt(s, i);
      InterleaveCons(s[..i], g, rest, more);
    }
  }

  /** ... and only there: the pieces have the shape of a leftmost, longest
      split, so no other way of cutting `s` at breaks gives them. */
  lemma {:induction false} SplitParagraphsShape(s: string)
    decreases |s|
    ensures ParagraphPieces(SplitParagraphs(s))
  {
    var i := NextSeparator(s, 0);
    HeadNoSeparator(s, i);
    if i == |s| {
      assert s[..i] == s;
    } else {
      var e := SeparatorEnd(s, i);
      SplitParagraphsShape(s[e..]);
      HeadTrailingSpace(s, i);
      ShapeStep(s, i, SplitParagraphs(s[e..]));
    }
  }

  lemma ShapeStep(s: string, i: nat, rest: seq<string>)
    requires IsSeparatorAt(s, i) && rest == SplitParagraphs(s[SeparatorEnd(s, i)..])
    requires NoSeparator(s[..i]) && NoNewlineAtEnd(s[..i]) && ParagraphPieces(rest)
    ensures ParagraphPieces([s[..i]] + rest)
  {
    FirstAfterBreak(s, i);
    ParagraphPiecesCons(s[..i], rest);
  }

  /** The piece that follows a break starts with whitespace that holds no
      newline, and is not blank when another break follows it. */
  lemma FirstAfterBreak(s: string, i: nat)
    requires IsSeparatorAt(s, i)
    ensures var rest := SplitParagraphs(s[SeparatorEnd(s, i)..]);
      NoNewlineAtStart(rest[0]) && (|rest| >= 2 ==> TrimLeft(rest[0]) != [])
  {
    var e := SeparatorEnd(s, i);
    var q := SplitParagraphs(s[e..])[0];
    StartAfterBreak(s, i);
    NoNewlineAtStartPrefix(s[e..], q);
    if |SplitParagraphs(s[e..])| >= 2 {
      NextNotBlank(s, i);
    }
  }

  /** `[p.strip() for p in pieces if p.strip()]`. */
  function StripAndDropEmpty(pieces: seq<string>): (r: seq<string>)
    ensures forall p :: p in r ==> IsStripped(p)
  {
    if pieces == [] then []
    else
      var kept := KeptPiece(pieces[0]);
      var rest := StripAndDropEmpty(pieces[1..]);
      assert forall p :: p in kept ==> IsStripped(p);
      assert forall p :: p in kept + rest ==> p in kept || p in rest;
      kept + rest
  }

  /** What one piece contributes: itself stripped, unless that is empty. */
  function KeptPiece(p: string): seq<string> {
    if Strip(p) != [] then [Strip(p)] else []
  }

  /** A single piece is kept, stripped, exactly when it is not blank. */
  lemma StripAndDropEmptyOne(p: string)
    ensures StripAndDropEmpty([p]) == if Strip(p) != [] then [Strip(p)] else []
  {
    assert [p][1..] == [];
  }

  /** The pieces are handled one by one, in order: taken with
      `StripAndDropEmptyOne`, `StripAndDropEmpty(pieces)` is the stripped
      pieces that are not blank, in the order of `pieces`. */
  lemma {:induction false} StripAndDropEmptyConcat(a: seq<string>, b: seq<string>)
    ensures StripAndDropEmpty(a + b) == StripAndDropEmpty(a) + StripAndDropEmpty(b)
  {
    if a == [] {
      assert a + b == b;
    } else {
      ConcatTail(a, b);
      StripAndDropEmptyConcat(a[1..], b);
      ConcatAssoc(KeptPiece(a[0]), StripAndDropEmpty(a[1..]), StripAndDropEmpty(b));
    }
  }

  /** `p` is non-empty and has no whitespace at either end. */
  predicate IsStripped(p: string) {
    p != [] && !IsSpace(p[0]) && !IsSpace(p[|p| - 1])
  }

  /** The paragraphs of `extract_structure`: every one non-empty and
      stripped, and together they hold every non-whitespace character of the
      text, in order. */
  function Paragraphs(s: string): (r: seq<string>)
    ensures forall p :: p in r ==> IsStripped(p)
    ensures NonSpace(Flatten(r)) == NonSpace(s)
  {
    StripAndDropEmptyKeepsText(SplitParagraphs(s));
    SplitParagraphsKeepsText(s);
    StripAndDropEmpty(SplitParagraphs(s))
  }

  lemma {:induction false} StripAndDropEmptyKeepsText(pieces: seq<string>)
    ensures NonSpace(Flatten(StripAndDropEmpty(pieces))) == NonSpace(Flatten(pieces))
  {
    if pieces != [] {
      var p := Strip(pieces[0]);
      var rest := StripAndDropEmpty(pieces[1..]);
      StripAndDropEmptyKeepsText(pieces[1..]);
      NonSpaceStrip(pieces[0]);
      NonSpaceConcat(pieces[0], Flatten(pieces[1..]));
      if p != [] {
        assert ([p] + rest)[1..] == rest;
        NonSpaceConcat(p, Flatten(rest));
      } else {
        assert [] + rest == rest;
        assert NonSpace(p) == [];
      }
    }
  }

  lemma {:induction false} SplitParagraphsKeepsText(s: string)
    decreases |s|
    ensures NonSpace(Flatten(SplitParagraphs(s))) == NonSpace(s)
  {
    var i := NextSeparator(s, 0);
    if i == |s| {
      assert Flatten([s]) == s + Flatten([s][1..]);
      assert s + [] == s;
    } else {
      var e := SeparatorEnd(s, i);
      var rest := SplitParagraphs(s[e..]);
      assert ([s[..i]] + rest)[1..] == rest;
      SplitParagraphsKeepsText(s[e..]);
      NonSpaceConcat(s[..i], Flatten(rest));
      SeparatorIsSpace(s, i, e);
    }
  }

  lemma SeparatorIsSpace(s: string, i: nat, e: nat)
    requires i <= e <= |s|
    requires forall k :: i <= k < e ==> IsSpace(s[k])
    ensures NonSpace(s) == NonSpace(s[..i]) + NonSpace(s[e..])
  {
    NonSpaceSplitAt(s, i);
    NonSpaceSkipSpaces(s, i, e);
  }

  lemma {:induction false} NonSpaceSkipSpaces(s: string, i: nat, e: nat)
    requires i <= e <= |s|
    requires forall k :: i <= k < e ==> IsSpace(s[k])
    ensures NonSpace(s[i..]) == NonSpace(s[e..])
    decreases e - i
  {
    if i < e {
      assert s[i..][0] == s[i] && s[i..][1..] == s[i + 1..];
      NonSpaceSkipSpaces(s, i + 1, e);
    }
  }

  /** The dictionary `extract_structure` returns. */
  datatype DocumentStructure = DocumentStructure(
    headings: seq<string>, paragraphs: seq<string>, bulletPoints: seq<string>)

  /** `TextProcessor.extract_structure`. */
  function ExtractStructure(s: string): (r: DocumentStructure)
    ensures forall h :: h in r.headings ==> HeadingForm(h, s)
    ensures forall p :: p in r.paragraphs ==> IsStripped(p)
    ensures forall b :: b in r.bulletPoints ==> b != [] && NoNewline(b)
  {
    DocumentStructure(Headings(s), Paragraphs(s), BulletPoints(s))
  }

  /** A paragraph and a heading coincide only when the heading is the text's
      last line and that line has no newline: every other heading keeps its
      newline, which a stripped paragraph never ends with. */
  lemma HeadingParagraphOverlap(s: string, h: string)
    requires h in Headings(s) && h in Paragraphs(s)
    ensures IsSuffix(h, s) && NoNewline(h)
  {
    assert HeadingForm(h, s) && IsStripped(h);
    assert IsSpace('\n');
    assert h[|h| - 1] != '\n';
    SplitLast(h);
  }

  /** `f"{prefix}{item}\n"` for each item, concatenated: empty exactly when
      there are no items, and otherwise opening with the item prefix. */
  function ItemLines(prefix: string, items: seq<string>): (r: string)
    ensures r == [] <==> items == []
    ensures items != [] ==> IsPrefix(prefix, r)
  {
    if items == [] then []
    else
      var before := ItemLines(prefix, items[..|items| - 1]);
      var line := prefix + items[|items| - 1] + "\n";
      assert IsPrefix(prefix, before + line) by {
        if before != [] {
          PrefixOfConcat(prefix, before, line);
        } else {
          assert before + line == prefix + (items[|items| - 1] + "\n");
          PrefixOfConcat(prefix, prefix, items[|items| - 1] + "\n");
        }
      }
      assert before + prefix + items[|items| - 1] + "\n" == before + line;
      before + prefix + items[|items| - 1] + "\n"
  }

  /** A titled section: present only when it has items, and then opening
      with its title. */
  function Section(title: string, prefix: string, items: seq<string>): (r: string)
    ensures r == [] <==> items == []
    ensures items != [] ==> IsPrefix(title, r)
  {
    if items == [] then []
    else
      var lines := ItemLines(prefix, items);
      PrefixOfConcat(title, title, lines);
      PrefixOfConcat(title, title + lines, "\n");
      title + lines + "\n"
  }

  /** `f"{paragraph}\n\n"` for each paragraph that is not among the headings:
      empty exactly when every paragraph is a heading. */
  function ContentLines(paragraphs: seq<string>, headings: seq<string>): (r: string)
    ensures r == [] <==> forall p :: p in paragraphs ==> p in headings
  {
    if paragraphs == [] then []
    else
      var init := paragraphs[..|paragraphs| - 1];
      var p := paragraphs[|paragraphs| - 1];
      assert forall q :: q in paragraphs <==> q in init || q == p by {
        assert paragraphs == init + [p];
      }
      ContentLines(init, headings) + (if p !in headings then p + "\n\n" else [])
  }

  /** The text `format_for_summary` builds before its final `strip()`: the
      sections in order, so it opens with the title of the first section
      present. */
  function SummaryDraft(st: DocumentStructure): (r: string)
    ensures IsPrefix(OpeningTitle(st), r)
  {
    var topics := Section("Main Topics:\n", "- ", st.headings);
    var points := Section("Key Points:\n", "\U{2022} ", st.bulletPoints);
    var content := ContentLines(st.paragraphs, st.headings);
    var title := OpeningTitle(st);
    assert IsPrefix(title, topics + points + "Content:\n") by {
      if st.headings != [] {
        TitleOfSection("Main Topics:", topics);
        PrefixOfConcat(title, topics, points);
        PrefixOfConcat(title, topics + points, "Content:\n");
      } else if st.bulletPoints != [] {
        TitleOfSection("Key Points:", points);
        assert topics + points == points;
        PrefixOfConcat(title, points, "Content:\n");
      } else {
        assert topics + points + "Content:\n" == title + "\n";
        PrefixOfConcat(title, title, "\n");
      }
    }
    PrefixOfConcat(title, topics + points + "Content:\n", content);
    topics + points + "Content:\n" + content
  }

  /** A section opening with `title + "\n"` opens with `title`. */
  lemma TitleOfSection(title: string, section: string)
    requires IsPrefix(title + "\n", section)
    ensures IsPrefix(title, section)
  {
    assert section[..|title|] == section[..|title| + 1][..|title|];
  }

  /** The title the summary opens with: the first section that is present. */
  function OpeningTitle(st: DocumentStructure): string {
    if st.headings != [] then "Main Topics:"
    else if st.bulletPoints != [] then "Key Points:"
    else "Content:"
  }

  /** `p` is a prefix of `s`. */
  predicate IsPrefix(p: string, s: string) {
    |p| <= |s| && s[..|p|] == p
  }

  lemma PrefixOfConcat(p: string, a: string, b: string)
    requires IsPrefix(p, a)
    ensures IsPrefix(p, a + b)
  {
    assert (a + b)[..|p|] == a[..|p|];
  }

  /** Stripping keeps a prefix that starts and ends with a non-space. */
  lemma StripKeepsPrefix(s: string, p: string)
    requires IsStripped(p) && IsPrefix(p, s)
    ensures IsPrefix(p, Strip(s))
  {
    assert s[0] == p[0];
    assert TrimLeft(s) == s;
    var t := TrimRight(s);
    assert s[|p| - 1] == p[|p| - 1];
    assert |p| <= |t|;
    assert t[..|p|] == s[..|p|];
  }

  lemma AppendItemLine(head: string, prefix: string, items: seq<string>, i: nat)
    requires i < |items|
    ensures head + ItemLines(prefix, items[..i]) + prefix + items[i] + "\n"
      == head + ItemLines(prefix, items[..i + 1])
  {
    assert items[..i + 1][..i] == items[..i];
  }

  lemma AppendContentLine(head: string, paragraphs: seq<string>, headings: seq<string>, i: nat)
    requires i < |paragraphs|
    ensures paragraphs[i] !in headings ==>
      head + ContentLines(paragraphs[..i], headings) + paragraphs[i] + "\n\n"
      == head + ContentLines(paragraphs[..i + 1], headings)
    ensures paragraphs[i] in headings ==>
      head + ContentLines(paragraphs[..i], headings) == head + ContentLines(paragraphs[..i + 1], headings)
  {
    assert paragraphs[..i + 1][..i] == paragraphs[..i];
    assert ContentLines(paragraphs[..i], headings) + [] == ContentLines(paragraphs[..i], headings);
  }

  lemma CloseSection(before: string, title: string, lines: string)
    ensures before + title + lines + "\n" == before + (title + lines + "\n")
  {
  }

  /** `TextProcessor.format_for_summary`: extract the structure, then lay it out. */
  method FormatForSummary(text: string) returns (summary: string)
    ensures summary == Strip(SummaryDraft(ExtractStructure(text)))
    ensures IsPrefix(OpeningTitle(ExtractStructure(text)), summary)
  {
    var st := ExtractStructure(text);
    summary := FormatStructure(st);
  }

  /** The loops of `format_for_summary`: they append the lines of each section
      to `formatted_text`, which is then stripped. */
  method FormatStructure(st: DocumentStructure) returns (summary: string)
    ensures summary == Strip(SummaryDraft(st))
    ensures IsPrefix(OpeningTitle(st), summary)
  {
    var formatted: string := [];
    if st.headings != [] {
      formatted := formatted + "Main Topics:\n";
      ghost var head := formatted;
      for i := 0 to |st.headings|
        invariant formatted == head + ItemLines("- ", st.headings[..i])
      {
        AppendItemLine(head, "- ", st.headings, i);
        formatted := formatted + "- " + st.headings[i] + "\n";
      }
      assert st.headings[..|st.headings|] == st.headings;
      formatted := formatted + "\n";
    }
    assert formatted == Section("Main Topics:\n", "- ", st.headings);
    ghost var topics := formatted;
    if st.bulletPoints != [] {
      formatted := formatted + "Key Points:\n";
      ghost var head := formatted;
      for i := 0 to |st.bulletPoints|
        invariant formatted == head + ItemLines("\U{2022} ", st.bulletPoints[..i])
      {
        AppendItemLine(head, "\U{2022} ", st.bulletPoints, i);
        formatted := formatted + "\U{2022} " + st.bulletPoints[i] + "\n";
      }
      assert st.bulletPoints[..|st.bulletPoints|] == st.bulletPoints;
      formatted := formatted + "\n";
      CloseSection(topics, "Key Points:\n", ItemLines("\U{2022} ", st.bulletPoints));
    } else {
      assert topics + [] == topics;
    }
    assert formatted == topics + Section("Key Points:\n", "\U{2022} ", st.bulletPoints);
    formatted := formatted + "Content:\n";
    ghost var head := formatted;
    for i := 0 to |st.paragraphs|
      invariant formatted == head + ContentLines(st.paragraphs[..i], st.headings)
    {
      AppendContentLine(head, st.paragraphs, st.headings, i);
      var paragraph := st.paragraphs[i];
      if paragraph !in st.headings {
        formatted := formatted + paragraph + "\n\n";
      }
    }
    assert st.paragraphs[..|st.paragraphs|] == st.paragraphs;
    summary := Strip(formatted);
    OpeningTitleLeads(st);
  }

  /** The stripped draft still opens with the title of its first section. */
  lemma OpeningTitleLeads(st: DocumentStructure)
    ensures IsPrefix(OpeningTitle(st), Strip(SummaryDraft(st)))
  {
    StripKeepsPrefix(SummaryDraft(st), OpeningTitle(st));
  }
}
