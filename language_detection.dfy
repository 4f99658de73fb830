/** `TextProcessor.detect_language`: count, for each of three languages, the
    words of the lower-cased text that belong to a short list of common words
    of that language, and return the language with the most matches. */
module LanguageDetection {
  import opened TextBasics
  import Keywords

  /** `language_patterns`, in insertion order: a language code and the
      alternatives of its `\b(...)\b` pattern. */
  const Languages: seq<(string, set<string>)> := [
    ("en", {"the", "and", "is", "in", "to", "of", "a", "for", "that", "this",
            "an", "be", "have", "it", "on", "at"}),
    ("es", {"el", "la", "los", "las", "un", "una", "unos", "unas", "y", "de",
            "en", "con", "por", "para"}),
    ("fr", {"le", "la", "les", "un", "une", "des", "de", "et", "dans", "sur",
            "pour", "avec"})
  ]

  /** `len(re.findall(pattern, text))` for `pattern = \b(w1|...|wn)\b` whose
      alternatives are all letters: a match has a word boundary on both sides,
      so it is exactly a maximal word run equal to one of the alternatives. */
  function MatchCount(words: seq<string>, vocabulary: set<string>): (n: nat)
    ensures n == |set i | 0 <= i < |words| && words[i] in vocabulary|
    ensures n <= |words|
    ensures n == 0 <==> forall i :: 0 <= i < |words| ==> words[i] !in vocabulary
    ensures n == |words| <==> forall i :: 0 <= i < |words| ==> words[i] in vocabulary
  {
    if words == [] then 0
    else
      var init := words[..|words| - 1];
      var n := MatchCount(init, vocabulary);
      MatchCountStep(words, vocabulary, n);
      n + (if words[|words| - 1] in vocabulary then 1 else 0)
  }

  /** The matching positions of `words` are those of all but its last word,
      and the last position when the last word matches. */
  lemma MatchCountStep(words: seq<string>, vocabulary: set<string>, n: nat)
    requires words != []
    requires var init := words[..|words| - 1];
      && n == |set i | 0 <= i < |init| && init[i] in vocabulary|
      && n <= |init|
      && (n == 0 <==> forall i :: 0 <= i < |init| ==> init[i] !in vocabulary)
      && (n == |init| <==> forall i :: 0 <= i < |init| ==> init[i] in vocabulary)
    ensures var m := n + (if words[|words| - 1] in vocabulary then 1 else 0);
      && m == |set i | 0 <= i < |words| && words[i] in vocabulary|
      && m <= |words|
      && (m == 0 <==> forall i :: 0 <= i < |words| ==> words[i] !in vocabulary)
      && (m == |words| <==> forall i :: 0 <= i < |words| ==> words[i] in vocabulary)
  {
    var last := |words| - 1;
    var init := words[..last];
    var before := set i | 0 <= i < |init| && init[i] in vocabulary;
    var all := set i | 0 <= i < |words| && words[i] in vocabulary;
    assert forall i :: 0 <= i < last ==> init[i] == words[i];
    if words[last] in vocabulary {
      assert all == before + {last};
      assert last !in before;
    } else {
      assert all == before;
    }
  }

  /** The match counts of the three languages for `text`. */
  function Scores(wc: WordClass, text: string): (r: seq<nat>)
    ensures |r| == |Languages|
    ensures forall k :: 0 <= k < |r| ==>
      r[k] == MatchCount(Keywords.Words(wc, Lower(text)), Languages[k].1)
  {
    var words := Keywords.Words(wc, Lower(text));
    seq(|Languages|, k requires 0 <= k < |Languages| => MatchCount(words, Languages[k].1))
  }

  /** `k` is where Python's `max` over the counts stops: a greatest count, and
      the first one among equal greatest counts. */
  predicate IsFirstMaximum(scores: seq<nat>, k: int) {
    && 0 <= k < |scores|
    && (forall j :: 0 <= j < |scores| ==> scores[j] <= scores[k])
    && (forall j :: 0 <= j < k ==> scores[j] < scores[k])
  }

  /** The first maximum is unique, so it determines the detected language. */
  lemma FirstMaximumUnique(scores: seq<nat>, k1: int, k2: int)
    requires IsFirstMaximum(scores, k1) && IsFirstMaximum(scores, k2)
    ensures k1 == k2
  {
    assert scores[k1] == scores[k2];
  }

  /** One step of the scan for the maximum: a strictly greater count moves it. */
  lemma FirstMaximumStep(scores: seq<nat>, i: nat, best: nat)
    requires 0 < i < |scores| && IsFirstMaximum(scores[..i], best)
    ensures IsFirstMaximum(scores[..i + 1], if scores[i] > scores[best] then i else best)
  {
    assert forall j :: 0 <= j < i ==> scores[..i][j] == scores[j] == scores[..i + 1][j];
  }

  /** The language codes are distinct keys of `detected_languages`. */
  lemma CodesDistinct()
    ensures forall a, b :: 0 <= a < b < |Languages| ==> Languages[a].0 != Languages[b].0
  {
    assert Languages[0].0[1] != Languages[1].0[1] && Languages[0].0[0] != Languages[2].0[0];
    assert Languages[1].0[0] != Languages[2].0[0];
  }

  /** The `detected_languages` dictionary: each language code mapped to the
      number of its indicator words among `words`. */
  method CountMatches(words: seq<string>) returns (detected: map<string, nat>)
    ensures forall k :: 0 <= k < |Languages| ==>
      Languages[k].0 in detected && detected[Languages[k].0] == MatchCount(words, Languages[k].1)
  {
    CodesDistinct();
    detected := map[];
    for i := 0 to |Languages|
      invariant forall k :: 0 <= k < i ==>
        Languages[k].0 in detected && detected[Languages[k].0] == MatchCount(words, Languages[k].1)
    {
      detected := detected[Languages[i].0 := MatchCount(words, Languages[i].1)];
    }
  }

  /** `TextProcessor.detect_language`. */
  method DetectLanguage(wc: WordClass, text: string) returns (lang: string)
    ensures text == [] ==> lang == "unknown"
    ensures text != [] ==> exists k :: IsFirstMaximum(Scores(wc, text), k) && lang == Languages[k].0
  {
    if text == [] {
      return "unknown";
    }
    var words := Keywords.Words(wc, Lower(text));
    ghost var scores := Scores(wc, text);
    var detected := CountMatches(words);
    // max(detected_languages, key=detected_languages.get)
    var best := 0;
    for i := 1 to |Languages|
      invariant 0 <= best < i
      invariant IsFirstMaximum(scores[..i], best)
    {
      FirstMaximumStep(scores, i, best);
      if detected[Languages[i].0] > detected[Languages[best].0] {
        best := i;
      }
    }
    assert scores[..|Languages|] == scores;
    lang := Languages[best].0;
  }
}
