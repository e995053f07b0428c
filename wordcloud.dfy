/**
 * What generate_wordcloud in app.py derives from a vote table before any
 * drawing: the item counts without the ballot count, their sum, the
 * word-frequency table keyed by translated item names, the choice between a
 * blank image and a word cloud, the output path and the font.
 *
 * The drawing itself is not modelled: an Image records which kind of file
 * is written, where, and from what frequencies and font.
 */
module Wordcloud {
  import opened Wrappers
  import opened Votes
  import opened Translations

  /** The languages an image is drawn for (`LANGUAGES`). */
  const Languages: seq<string> := ["en", "he", "ar"]

  /** `WORDCLOUD_DIR`. */
  const WordcloudDir := "static/wordcloud"

  /** Where the fonts live. */
  const FontsDir := "static/fonts"

  /** The font for Hebrew and English, and the one for Arabic. */
  const EzerEuro := FontsDir + "/EzerEuro-Medium.otf"
  const Cairo := FontsDir + "/Cairo-VariableFont.ttf"

  /** `vote_counts`: the table without the ballot count. */
  function VoteCounts(votes: Counts): (counts: Counts)
    ensures counts.Keys == votes.Keys - {TotalVotesKey}
    ensures forall k :: k in counts ==> counts[k] == votes[k]
  {
    map k | k in votes && k != TotalVotesKey :: votes[k]
  }

  // ---------------------------------------------------------------------------
  // The sum of the counts

  /** The sum of the counts of `keys`, in some order. */
  ghost function SumOver(m: Counts, keys: set<string>): int
    requires keys <= m.Keys
    decreases keys
  {
    if keys == {} then 0 else var k :| k in keys; m[k] + SumOver(m, keys - {k})
  }

  /** `sum(m.values())`. */
  ghost function Total(m: Counts): int {
    SumOver(m, m.Keys)
  }

  /** The sum does not depend on which key is taken first. */
  lemma {:induction false} SumOverRemove(m: Counts, keys: set<string>, k: string)
    requires keys <= m.Keys && k in keys
    ensures SumOver(m, keys) == m[k] + SumOver(m, keys - {k})
    decreases keys
  {
    var j :| j in keys && SumOver(m, keys) == m[j] + SumOver(m, keys - {j});
    if j != k {
      SumOverRemove(m, keys - {j}, k);
      SumOverRemove(m, keys - {k}, j);
      assert keys - {j} - {k} == keys - {k} - {j};
    }
  }

  /** `sum(vote_counts.values())`, one key at a time. */
  method SumValues(m: Counts) returns (s: int)
    ensures s == Total(m)
  {
    s := 0;
    var rest := m.Keys;
    while rest != {}
      invariant rest <= m.Keys
      invariant s + SumOver(m, rest) == Total(m)
      decreases rest
    {
      var k :| k in rest;
      SumOverRemove(m, rest, k);
      s := s + m[k];
      rest := rest - {k};
    }
  }

  /** Whether some item has a positive count. */
  predicate HasPositive(m: Counts) {
    exists k :: k in m && m[k] > 0
  }

  /** Counts that are never negative sum to zero exactly when none is positive. */
  lemma {:induction false} SumOfNonNegative(m: Counts, keys: set<string>)
    requires keys <= m.Keys
    requires forall k :: k in keys ==> m[k] >= 0
    ensures SumOver(m, keys) >= 0
    ensures SumOver(m, keys) == 0 <==> forall k :: k in keys ==> m[k] == 0
    decreases keys
  {
    if keys != {} {
      var j :| j in keys && SumOver(m, keys) == m[j] + SumOver(m, keys - {j});
      SumOfNonNegative(m, keys - {j});
    }
  }

  // ---------------------------------------------------------------------------
  // The word-frequency table

  /** The word shown for an item: its translation, or "Item " followed by its key. */
  function ItemName(translations: Table, id: string): (name: string)
    ensures id in translations ==> name == translations[id]
    ensures id !in translations ==> |name| == |"Item "| + |id|
    ensures id !in translations ==> name[..|"Item "|] == "Item " && name[|"Item "|..] == id
  {
    if id in translations then translations[id] else "Item " + id
  }

  /**
   * `freq` is a word-frequency table for `counts`: every word is the name of
   * some item with a positive count and carries that count, and every item
   * with a positive count has its name in the table. When two items share a
   * name, which count the word carries is not stated.
   */
  ghost predicate NamedFrequencies(freq: Counts, counts: Counts, translations: Table) {
    && (forall name :: name in freq ==>
          exists id :: id in counts && counts[id] > 0 && ItemName(translations, id) == name && freq[name] == counts[id])
    && (forall id :: id in counts && counts[id] > 0 ==> ItemName(translations, id) in freq)
  }

  /** The `word_freq` loop: each item with a positive count, under its translated name. */
  method WordFrequencies(counts: Counts, translations: Table) returns (freq: Counts)
    ensures NamedFrequencies(freq, counts, translations)
    ensures freq == map[] <==> !HasPositive(counts)
  {
    freq := map[];
    var rest := counts.Keys;
    while rest != {}
      invariant rest <= counts.Keys
      invariant forall name :: name in freq ==>
        exists id :: id in counts && id !in rest && counts[id] > 0
                  && ItemName(translations, id) == name && freq[name] == counts[id]
      invariant forall id :: id in counts && id !in rest && counts[id] > 0 ==> ItemName(translations, id) in freq
      decreases rest
    {
      var id :| id in rest;
      var count := counts[id];
      if count > 0 {
        var itemName := ItemName(translations, id);
        freq := freq[itemName := count];
      }
      rest := rest - {id};
    }
    assert freq != map[] ==> exists name :: name in freq;
  }

  // ---------------------------------------------------------------------------
  // Paths and fonts

  /** get_wordcloud_path: the image file of one language, `wordcloud_<language>.png` in the wordcloud directory. */
  function WordcloudPath(language: string): (path: string)
    ensures |path| == |WordcloudDir + "/wordcloud_"| + |language| + |".png"|
    ensures path[..|WordcloudDir + "/wordcloud_"|] == WordcloudDir + "/wordcloud_"
    ensures path[|WordcloudDir + "/wordcloud_"|..|path| - |".png"|] == language
    ensures path[|path| - |".png"|..] == ".png"
  {
    WordcloudDir + "/wordcloud_" + language + ".png"
  }

  /** Items without a translation never share a word: their fallback names differ. */
  lemma FallbackNamesDiffer(translations: Table, a: string, b: string)
    requires a !in translations && b !in translations && a != b
    ensures ItemName(translations, a) != ItemName(translations, b)
  {
    assert ItemName(translations, a)[|"Item "|..] == a;
    assert ItemName(translations, b)[|"Item "|..] == b;
  }

  /** Different languages never share an image file. */
  lemma WordcloudPathIsInjective(a: string, b: string)
    ensures WordcloudPath(a) == WordcloudPath(b) ==> a == b
  {
    var p := |WordcloudDir + "/wordcloud_"|;
    assert WordcloudPath(a)[p..p + |a|] == a;
    assert WordcloudPath(b)[p..p + |b|] == b;
  }

  /** The font for a language: EzerEuro for Hebrew and English, Cairo for Arabic, none otherwise. */
  function FontFor(language: string): (font: Option<string>)
    ensures font.Some? <==> language in Languages
    ensures font == Some(EzerEuro) <==> language == "he" || language == "en"
    ensures font == Some(Cairo) <==> language == "ar"
  {
    if language == "he" then Some(EzerEuro)
    else if language == "ar" then Some(Cairo)
    else if language == "en" then Some(EzerEuro)
    else None
  }

  // ---------------------------------------------------------------------------
  // The image

  /** What generate_wordcloud writes, and where. */
  datatype Image =
    | Blank(path: string)
    | Cloud(path: string, frequencies: Counts, font: Option<string>)

  /**
   * generate_wordcloud: a blank image when the item counts are empty or sum
   * to zero, or when no item has a positive count; otherwise a word cloud of
   * the translated names in the language's font.
   */
  method GenerateWordcloud(votes: Counts, language: string, translations: Table) returns (image: Image)
    ensures image.path == WordcloudPath(language)
    ensures image.Blank? <==> Total(VoteCounts(votes)) == 0 || !HasPositive(VoteCounts(votes))
    ensures image.Cloud? ==>
      && NamedFrequencies(image.frequencies, VoteCounts(votes), translations)
      && image.font == FontFor(language)
  {
    var outputPath := WordcloudPath(language);
    var voteCounts := VoteCounts(votes);
    var total := SumValues(voteCounts);
    if |voteCounts| == 0 || total == 0 {
      assert voteCounts.Keys == {} ==> Total(voteCounts) == 0;
      return Blank(outputPath);
    }
    var wordFreq := WordFrequencies(voteCounts, translations);
    if |wordFreq| == 0 {
      return Blank(outputPath);
    }
    image := Cloud(outputPath, wordFreq, FontFor(language));
  }

  /** For tables this server writes (no negative count), the image is blank exactly when no item has a vote. */
  lemma BlankIffNoVotes(votes: Counts)
    requires forall k :: k in votes ==> votes[k] >= 0
    ensures Total(VoteCounts(votes)) == 0 || !HasPositive(VoteCounts(votes))
        <==> forall k :: k in votes && k != TotalVotesKey ==> votes[k] == 0
  {
    var counts := VoteCounts(votes);
    SumOfNonNegative(counts, counts.Keys);
  }
}
