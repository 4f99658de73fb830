/** `TextProcessor.chunk_text`: split a text into sentences, then pack
    consecutive sentences greedily into chunks of bounded size. */
module Chunking {
  import opened TextBasics
  import Config

  predicate EndsSentence(c: char) { c == '.' || c == '!' || c == '?' }

  /** Position `i` is where `(?<=[.!?])\s+` can start matching: a whitespace
      character right after sentence-ending punctuation. */
  predicate IsBreak(s: string, i: int) {
    0 < i < |s| && EndsSentence(s[i - 1]) && IsSpace(s[i])
  }

  /** The first break at or after `k`, or `|s|` when there is none. */
  function NextBreak(s: string, k: nat): (b: nat)
    decreases |s| - k
    ensures (k <= b < |s| && IsBreak(s, b)) || b == |s|
    ensures forall i :: k <= i < b ==> !IsBreak(s, i)
  {
    if k >= |s| then |s| else if IsBreak(s, k) then k else NextBreak(s, k + 1)
  }

  /** `re.split(r'(?<=[.!?])\s+', s)`. At a break the greedy `\s+` takes the
      whole whitespace run; the next candidate position is then the first
      character after the run, which is not whitespace, so scanning resumes
      after it. */
  function SplitSentences(s: string): (r: seq<string>)
    decreases |s|
    ensures |r| >= 1 && |r[0]| <= |s| && r[0] == s[..|r[0]|]
  {
    var b := NextBreak(s, 1);
    if b == |s| then [s]
    else [s[..b]] + SplitSentences(TrimLeft(s[b..]))
  }

  /** The text is the sentences put back together with the whitespace runs
      the split removed between them: one non-empty run between each two
      consecutive sentences. */
  lemma {:induction false} SplitSentencesRebuild(s: string) returns (gaps: seq<string>)
    decreases |s|
    ensures |gaps| == |SplitSentences(s)| - 1
    ensures forall g :: g in gaps ==> g != [] && AllSpace(g)
    ensures Interleave(SplitSentences(s), gaps) == s
  {
    var b := NextBreak(s, 1);
    if b == |s| {
      gaps := [];
      assert s[..b] == s;
    } else {
      var u := s[b..];
      var t := TrimLeft(u);
      var gap := u[..|u| - |t|];
      var rest := SplitSentences(t);
      var more := SplitSentencesRebuild(t);
      gaps := [gap] + more;
      assert SplitSentences(s) == [s[..b]] + rest;
      InterleaveCons(s[..b], gap, rest, more);
      BreakGap(s, b);
    }
  }

  /** At a break, the whitespace run `\s+` takes is not empty, and the text
      is what comes before it, the run, and the rest. */
  lemma BreakGap(s: string, b: nat)
    requires IsBreak(s, b)
    ensures var u := s[b..]; var t := TrimLeft(u); var gap := u[..|u| - |t|];
      gap != [] && AllSpace(gap) && s == s[..b] + gap + t
  {
    var u := s[b..];
    var t := TrimLeft(u);
    var n := |u| - |t|;
    var gap := u[..n];
    SuffixAt(s, b, b);
    assert n > 0;
    forall k | 0 <= k < n
      ensures IsSpace(gap[k])
    {
      assert gap[k] == u[k];
    }
    AllSpaceByIndex(gap);
    SplitAt(u, n);
    SplitAt(s, b);
    ConcatAssoc(s[..b], gap, t);
  }

  /** No split point lies inside `p`. */
  predicate Unbroken(p: string) {
    forall j :: 0 <= j < |p| ==> !IsBreak(p, j)
  }

  /** What `re.split` promises about the pieces: there is at least one; every
      piece but the last ends with `.`, `!` or `?`; every piece after the first
      is empty or starts with non-whitespace; no piece holds a split point. */
  predicate SentencePieces(r: seq<string>) {
    && |r| >= 1
    && (forall i :: 0 <= i < |r| - 1 ==> r[i] != [] && EndsSentence(r[i][|r[i]| - 1]))
    && (forall i :: 0 < i < |r| ==> r[i] == [] || !IsSpace(r[i][0]))
    && (forall i :: 0 <= i < |r| ==> Unbroken(r[i]))
  }

  lemma {:induction false} SplitSentencesShape(s: string)
    decreases |s|
    ensures SentencePieces(SplitSentences(s))
  {
    var b := NextBreak(s, 1);
    if b == |s| {
      assert s[..b] == s;
      HeadUnbroken(s, b);
    } else {
      var t := TrimLeft(s[b..]);
      HeadUnbroken(s, b);
      SplitSentencesShape(t);
      var rest := SplitSentences(t);
      assert rest[0] == [] || rest[0][0] == t[0];
      ConsPieces(s[..b], rest);
    }
  }

  /** The text before the first split point holds none. */
  lemma HeadUnbroken(s: string, b: nat)
    requires b == NextBreak(s, 1)
    ensures Unbroken(s[..b])
    ensures b < |s| ==> s[..b] != [] && EndsSentence(s[..b][b - 1])
  {
    var head := s[..b];
    forall j | 0 <= j < |head| ensures !IsBreak(head, j) {
      if 0 < j {
        assert !IsBreak(s, j);
        assert head[j - 1] == s[j - 1] && head[j] == s[j];
      }
    }
  }

  lemma ConsPieces(head: string, rest: seq<string>)
    requires head != [] && EndsSentence(head[|head| - 1]) && Unbroken(head)
    requires SentencePieces(rest) && (rest[0] == [] || !IsSpace(rest[0][0]))
    ensures SentencePieces([head] + rest)
  {
    var r := [head] + rest;
    assert forall i :: 0 < i < |r| ==> r[i] == rest[i - 1];
  }

  /** Splitting drops only whitespace: joining the sentences with single spaces
      keeps every other character of the text, in order. */
  lemma {:induction false} SplitSentencesKeepsText(s: string)
    ensures NonSpace(JoinSpace(SplitSentences(s))) == NonSpace(s)
  {
    var b := NextBreak(s, 1);
    if b < |s| {
      var head := s[..b];
      var t := TrimLeft(s[b..]);
      var rest := SplitSentences(t);
      assert SplitSentences(s) == [head] + rest;
      calc {
        NonSpace(JoinSpace([head] + rest));
        { NonSpaceJoinHead(head, rest); }
        NonSpace(head) + NonSpace(JoinSpace(rest));
        { SplitSentencesKeepsText(t); }
        NonSpace(head) + NonSpace(t);
        { NonSpaceSplitAt(s, b); NonSpaceTrimLeft(s[b..]); }
        NonSpace(s);
      }
    }
  }

  lemma NonSpaceJoinHead(head: string, rest: seq<string>)
    requires rest != []
    ensures NonSpace(JoinSpace([head] + rest)) == NonSpace(head) + NonSpace(JoinSpace(rest))
  {
    assert ([head] + rest)[1..] == rest;
    assert JoinSpace([head] + rest) == head + (" " + JoinSpace(rest));
    assert NonSpace(" ") == [];
    NonSpaceConcat(head, " " + JoinSpace(rest));
    NonSpaceConcat(" ", JoinSpace(rest));
  }

  /** Sum of the lengths of the sentences (the joining spaces not counted). */
  function TotalLength(g: seq<string>): nat {
    if g == [] then 0 else TotalLength(g[..|g| - 1]) + |g[|g| - 1]|
  }

  /** The state of the packing loop: the chunks already flushed (as lists of
      sentences), `current_chunk` and `current_length`. */
  datatype Packing = Packing(groups: seq<seq<string>>, current: seq<string>, length: int)

  /** One iteration of the loop over sentences: the sentence ends up last
      in the current group. */
  function PackStep(p: Packing, sentence: string, chunkSize: int): (q: Packing)
    ensures q.current != [] && q.current[|q.current| - 1] == sentence
  {
    if p.length + |sentence| > chunkSize && p.current != [] then
      Packing(p.groups + [p.current], [sentence], |sentence|)
    else
      Packing(p.groups, p.current + [sentence], p.length + |sentence|)
  }

  /** The loop state after the sentences `ss` have been processed in order;
      the current group is empty only before the first sentence. */
  function PackAll(ss: seq<string>, chunkSize: int): (p: Packing)
    ensures p.current == [] <==> ss == []
  {
    if ss == [] then Packing([], [], 0)
    else PackStep(PackAll(ss[..|ss| - 1], chunkSize), ss[|ss| - 1], chunkSize)
  }

  /** The sentence groups of the chunks, the flushed ones and the last one:
      concatenated they are exactly the sentences, in order, and there are
      groups exactly when there are sentences. */
  function Groups(ss: seq<string>, chunkSize: int): (gs: seq<seq<string>>)
    ensures Flatten(gs) == ss
    ensures gs == [] <==> ss == []
  {
    var p := PackAll(ss, chunkSize);
    PackAllInvariant(ss, chunkSize);
    FlattenAppend(p.groups, p.current);
    if p.current != [] then p.groups + [p.current] else p.groups
  }

  /** The chunks of `chunk_text`, each group joined with single spaces. Joined
      with single spaces themselves, they are the sentences joined with single
      spaces: no sentence is lost, repeated or moved. */
  function Chunks(ss: seq<string>, chunkSize: int): (r: seq<string>)
    ensures |r| == |Groups(ss, chunkSize)|
    ensures r == [] <==> ss == []
    ensures JoinSpace(r) == JoinSpace(ss)
  {
    GroupsFit(ss, chunkSize);
    JoinGroups(Groups(ss, chunkSize));
    JoinEach(Groups(ss, chunkSize))
  }

  /** Each group joined with single spaces. */
  function JoinEach(gs: seq<seq<string>>): seq<string> {
    seq(|gs|, i requires 0 <= i < |gs| => JoinSpace(gs[i]))
  }

  lemma JoinEachAppend(gs: seq<seq<string>>, g: seq<string>)
    ensures JoinEach(gs + [g]) == JoinEach(gs) + [JoinSpace(g)]
  {
    assert forall i :: 0 <= i < |gs| ==> (gs + [g])[i] == gs[i];
  }

  /** A group respects the size rule: one sentence alone, or sentences whose
      lengths add up to at most `chunkSize`. */
  predicate FitsSize(g: seq<string>, chunkSize: int) {
    |g| == 1 || TotalLength(g) <= chunkSize
  }

  /** What the loop keeps true from one sentence to the next. */
  predicate PackingInvariant(p: Packing, ss: seq<string>, chunkSize: int) {
    && Flatten(p.groups) + p.current == ss
    && p.length == TotalLength(p.current)
    && (ss != [] ==> p.current != [])
    && (p.current == [] || FitsSize(p.current, chunkSize))
    && (forall k :: 0 <= k < |p.groups| ==> p.groups[k] != [] && FitsSize(p.groups[k], chunkSize))
    && (forall k :: 0 <= k < |p.groups| - 1 ==>
          TotalLength(p.groups[k]) + |p.groups[k + 1][0]| > chunkSize)
    && (p.groups != [] ==>
          TotalLength(p.groups[|p.groups| - 1]) + |p.current[0]| > chunkSize)
  }

  lemma {:induction false} TotalLengthAppend(g: seq<string>, s: string)
    ensures TotalLength(g + [s]) == TotalLength(g) + |s|
  {
    assert (g + [s])[..|g|] == g;
  }

  lemma {:induction false} PackAllInvariant(ss: seq<string>, chunkSize: int)
    ensures PackingInvariant(PackAll(ss, chunkSize), ss, chunkSize)
  {
    if ss != [] {
      var init := ss[..|ss| - 1];
      assert ss == init + [ss[|ss| - 1]];
      PackAllInvariant(init, chunkSize);
      PackStepInvariant(PackAll(init, chunkSize), init, ss[|ss| - 1], chunkSize);
    }
  }

  lemma PackStepInvariant(p: Packing, ss: seq<string>, s: string, chunkSize: int)
    requires PackingInvariant(p, ss, chunkSize)
    ensures PackingInvariant(PackStep(p, s, chunkSize), ss + [s], chunkSize)
  {
    if p.length + |s| > chunkSize && p.current != [] {
      FlushInvariant(p, ss, s, chunkSize);
    } else {
      ExtendInvariant(p, ss, s, chunkSize);
    }
  }

  /** The sentence does not fit: the current group is flushed. */
  lemma FlushInvariant(p: Packing, ss: seq<string>, s: string, chunkSize: int)
    requires PackingInvariant(p, ss, chunkSize)
    requires p.length + |s| > chunkSize && p.current != []
    ensures PackingInvariant(Packing(p.groups + [p.current], [s], |s|), ss + [s], chunkSize)
  {
    var q := Packing(p.groups + [p.current], [s], |s|);
    FlattenAppend(p.groups, p.current);
    TotalLengthAppend([], s);
    assert [] + [s] == [s];
    assert forall k :: 0 <= k < |p.groups| ==> q.groups[k] == p.groups[k];
  }

  /** The sentence fits, or the group is empty: it joins the current group. */
  lemma ExtendInvariant(p: Packing, ss: seq<string>, s: string, chunkSize: int)
    requires PackingInvariant(p, ss, chunkSize)
    requires !(p.length + |s| > chunkSize && p.current != [])
    ensures PackingInvariant(Packing(p.groups, p.current + [s], p.length + |s|), ss + [s], chunkSize)
  {
    TotalLengthAppend(p.current, s);
    if p.current == [] {
      assert ss == [] && p.groups == [] by {
        if ss != [] { assert false; }
      }
    } else {
      assert (p.current + [s])[0] == p.current[0];
    }
  }

  lemma PackAllPrefix(ss: seq<string>, i: nat, chunkSize: int)
    requires i < |ss|
    ensures PackAll(ss[..i + 1], chunkSize) == PackStep(PackAll(ss[..i], chunkSize), ss[i], chunkSize)
  {
    assert ss[..i + 1][..i] == ss[..i];
  }

  /** Every group is non-empty and obeys the size rule. */
  lemma GroupsFit(ss: seq<string>, chunkSize: int)
    ensures forall k :: 0 <= k < |Groups(ss, chunkSize)| ==>
      Groups(ss, chunkSize)[k] != [] && FitsSize(Groups(ss, chunkSize)[k], chunkSize)
  {
    var p := PackAll(ss, chunkSize);
    PackAllInvariant(ss, chunkSize);
    var g := Groups(ss, chunkSize);
    assert g == if p.current != [] then p.groups + [p.current] else p.groups;
    forall k | 0 <= k < |g| ensures g[k] != [] && FitsSize(g[k], chunkSize) {
      if k < |p.groups| {
        assert g[k] == p.groups[k];
        assert p.groups[k] != [] && FitsSize(p.groups[k], chunkSize);
      } else {
        assert g[k] == p.current;
      }
    }
  }

  /** Packing is greedy: a group was closed only because its next sentence
      would have pushed its length over `chunkSize`. */
  lemma GroupsGreedy(ss: seq<string>, chunkSize: int)
    ensures var g := Groups(ss, chunkSize);
      forall k :: 0 <= k < |g| ==> g[k] != []
    ensures var g := Groups(ss, chunkSize);
      forall k :: 0 <= k < |g| - 1 ==> TotalLength(g[k]) + |g[k + 1][0]| > chunkSize
  {
    GroupsFit(ss, chunkSize);
    var p := PackAll(ss, chunkSize);
    PackAllInvariant(ss, chunkSize);
    var g := Groups(ss, chunkSize);
    forall k | 0 <= k < |g| - 1 ensures TotalLength(g[k]) + |g[k + 1][0]| > chunkSize {
      assert g[k] == p.groups[k];
      if k + 1 < |p.groups| { assert g[k + 1] == p.groups[k + 1]; }
    }
  }

  /** Joining the joined groups equals joining the sentences themselves. */
  lemma {:induction false} JoinGroups(gs: seq<seq<string>>)
    requires forall k :: 0 <= k < |gs| ==> gs[k] != []
    ensures JoinSpace(JoinEach(gs)) == JoinSpace(Flatten(gs))
  {
    if |gs| > 1 {
      var joined := JoinEach(gs);
      var tail := gs[1..];
      JoinGroups(tail);
      assert joined[1..] == JoinEach(tail);
      FlattenNonEmpty(tail);
      JoinSpaceAppend(gs[0], Flatten(tail));
    } else if |gs| == 1 {
      assert Flatten(gs) == gs[0] + Flatten(gs[1..]);
      assert gs[0] + Flatten(gs[1..]) == gs[0];
    }
  }

  lemma {:induction false} FlattenNonEmpty(gs: seq<seq<string>>)
    requires gs != [] && gs[0] != []
    ensures Flatten(gs) != []
  {
    assert |Flatten(gs)| >= |gs[0]|;
  }

  /** `TextProcessor.chunk_text`: the loop over sentences, with `chunks`,
      `current_chunk` and `current_length` updated as the source updates them. */
  method ChunkText(text: string, chunkSize: int) returns (chunks: seq<string>)
    ensures text == [] ==> chunks == []
    ensures text != [] ==> chunks == Chunks(SplitSentences(text), chunkSize)
    ensures text != [] ==> |chunks| >= 1
    ensures text != [] ==> JoinSpace(chunks) == JoinSpace(SplitSentences(text))
  {
    if text == [] {
      return [];
    }
    var sentences := SplitSentences(text);
    chunks := [];
    var currentChunk: seq<string> := [];
    var currentLength := 0;
    ghost var groups: seq<seq<string>> := [];
    for i := 0 to |sentences|
      invariant PackAll(sentences[..i], chunkSize) == Packing(groups, currentChunk, currentLength)
      invariant chunks == JoinEach(groups)
    {
      PackAllPrefix(sentences, i, chunkSize);
      var sentence := sentences[i];
      var sentenceLength := |sentence|;
      if currentLength + sentenceLength > chunkSize && currentChunk != [] {
        JoinEachAppend(groups, currentChunk);
        chunks := chunks + [JoinSpace(currentChunk)];
        groups := groups + [currentChunk];
        currentChunk := [];
        currentLength := 0;
      }
      currentChunk := currentChunk + [sentence];
      currentLength := currentLength + sentenceLength;
    }
    assert sentences[..|sentences|] == sentences;
    FinalFlush(sentences, chunkSize, groups, currentChunk, currentLength, chunks);
    if currentChunk != [] {
      chunks := chunks + [JoinSpace(currentChunk)];
    }
  }

  /** After the loop, `if current_chunk: chunks.append(' '.join(current_chunk))`
      completes the chunks. */
  lemma FinalFlush(ss: seq<string>, chunkSize: int, groups: seq<seq<string>>,
                   current: seq<string>, length: int, chunks: seq<string>)
    requires PackAll(ss, chunkSize) == Packing(groups, current, length)
    requires chunks == JoinEach(groups)
    ensures (if current != [] then chunks + [JoinSpace(current)] else chunks) == Chunks(ss, chunkSize)
  {
    if current != [] {
      JoinEachAppend(groups, current);
    }
  }

  /** `chunk_text(text)` with the default `chunk_size=CHUNK_SIZE`. */
  method ChunkTextDefault(text: string) returns (chunks: seq<string>)
    ensures text == [] ==> chunks == []
    ensures text != [] ==> chunks == Chunks(SplitSentences(text), Config.ChunkSize)
  {
    chunks := ChunkText(text, Config.ChunkSize);
  }
}
