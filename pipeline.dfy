/** `run_pipeline` after the fetch: detect each snippet's language, tokenize
    it with that language's policy, and count every token of every snippet
    in one frequency table. */
module Pipeline {

  import opened Wrappers
  import opened Strings
  import opened Tokenize

  /** The language a snippet is tokenized as: what the detector reports, or
      "en" when detection raises (`None`). */
  function DetectedLanguage(detect: string -> Option<string>, doc: string): string
  {
    match detect(doc)
    case Some(lang) => lang
    case None => "en"
  }

  function SnippetTokens(tk: Tokenizers, detect: string -> Option<string>, doc: string): seq<string>
  {
    TokenizeAndClean(tk, doc, DetectedLanguage(detect, doc))
  }

  /** `f(docs[0]) + f(docs[1]) + ...`: what a loop that extends a list by
      `f(doc)` for each `doc` holds at the end. */
  function Gather(f: string -> seq<string>, docs: seq<string>): seq<string>
  {
    if docs == [] then []
    else Gather(f, docs[..|docs| - 1]) + f(docs[|docs| - 1])
  }

  /** The tokens of all snippets, snippet after snippet, as `all_tokens`
      holds them at the end of the loop. */
  function AllTokens(tk: Tokenizers, detect: string -> Option<string>, docs: seq<string>): seq<string>
  {
    Gather(doc => SnippetTokens(tk, detect, doc), docs)
  }

  /** The sum of the counts of a frequency table. */
  ghost function Total(freq: map<string, nat>): nat
    decreases |freq|
  {
    if freq == map[] then 0
    else
      var w :| w in freq;
      assert (freq - {w}).Keys == freq.Keys - {w};
      freq[w] + Total(freq - {w})
  }

  // ---------------------------------------------------------------------
  // Counting: collections.Counter
  // ---------------------------------------------------------------------

  /** The sum does not depend on which key is taken first. */
  lemma TotalRemove(freq: map<string, nat>, k: string)
    requires k in freq
    ensures Total(freq) == freq[k] + Total(freq - {k})
    decreases |freq|
  {
    var w :| w in freq && Total(freq) == freq[w] + Total(freq - {w});
    if w != k {
      assert (freq - {w}).Keys == freq.Keys - {w};
      assert (freq - {k}).Keys == freq.Keys - {k};
      TotalRemove(freq - {w}, k);
      TotalRemove(freq - {k}, w);
      assert freq - {w} - {k} == freq - {k} - {w};
    }
  }

  /** Taking every copy of `k` out of a multiset removes `ms[k]` elements. */
  lemma {:induction false} MultisetRemoveAll(ms: multiset<string>, k: string)
    ensures |ms| == ms[k] + |ms[k := 0]|
    decreases ms[k]
  {
    if ms[k] > 0 {
      var smaller := ms[k := ms[k] - 1];
      assert ms == smaller + multiset{k};
      assert smaller[k := 0] == ms[k := 0];
      MultisetRemoveAll(smaller, k);
    }
  }

  /** A table that holds a multiset's counts sums to its size. */
  lemma {:induction false} TotalOfCounts(freq: map<string, nat>, ms: multiset<string>)
    requires forall w :: w in freq <==> w in ms
    requires forall w :: w in freq ==> freq[w] == ms[w]
    ensures Total(freq) == |ms|
    decreases |freq|
  {
    if freq == map[] {
      assert forall w :: ms[w] == 0 by {
        forall w ensures ms[w] == 0 {
          assert w !in freq;
        }
      }
      assert ms == multiset{};
    } else {
      var k :| k in freq;
      TotalRemove(freq, k);
      assert (freq - {k}).Keys == freq.Keys - {k};
      MultisetRemoveAll(ms, k);
      TotalOfCounts(freq - {k}, ms[k := 0]);
    }
  }

  /** `Counter(tokens)`: each distinct token mapped to its number of
      occurrences. */
  method Count(tokens: seq<string>) returns (freq: map<string, nat>)
    ensures forall w :: w in freq <==> w in tokens
    ensures forall w :: w in freq ==> freq[w] == multiset(tokens)[w]
    ensures Total(freq) == |tokens|
  {
    freq := map[];
    for i := 0 to |tokens|
      invariant forall w :: w in freq <==> w in tokens[..i]
      invariant forall w :: w in freq ==> freq[w] == multiset(tokens[..i])[w]
    {
      var w := tokens[i];
      assert tokens[..i + 1] == tokens[..i] + [w];
      if w in freq {
        freq := freq[w := freq[w] + 1];
      } else {
        freq := freq[w := 1];
      }
    }
    assert tokens[..|tokens|] == tokens;
    TotalOfCounts(freq, multiset(tokens));
  }

  // ---------------------------------------------------------------------
  // The pipeline loop
  // ---------------------------------------------------------------------

  /** No token at all exactly when no snippet produced one. */
  lemma {:induction false} GatherEmpty(f: string -> seq<string>, docs: seq<string>)
    ensures Gather(f, docs) == [] <==> forall i :: 0 <= i < |docs| ==> f(docs[i]) == []
  {
    if docs != [] {
      var init := docs[..|docs| - 1];
      GatherEmpty(f, init);
      assert forall i :: 0 <= i < |init| ==> init[i] == docs[i];
    }
  }

  /** Snippets contribute their tokens in order: the tokens of two batches
      of snippets are those of the first followed by those of the second. */
  lemma {:induction false} GatherAppend(f: string -> seq<string>, a: seq<string>, b: seq<string>)
    ensures Gather(f, a + b) == Gather(f, a) + Gather(f, b)
    decreases |b|
  {
    if b == [] {
      assert a + b == a;
    } else {
      var init := b[..|b| - 1];
      assert (a + b)[..|a + b| - 1] == a + init;
      assert (a + b)[|a + b| - 1] == b[|b| - 1];
      GatherAppend(f, a, init);
    }
  }

  /** `run_pipeline` from the fetched snippets on: the table counts every
      token of every snippet, and the second result is the number of
      snippets, whatever they produced. */
  method RunPipeline(tk: Tokenizers, detect: string -> Option<string>, docs: seq<string>)
    returns (freq: map<string, nat>, count: nat)
    ensures count == |docs|
    ensures forall w :: w in freq <==> w in AllTokens(tk, detect, docs)
    ensures forall w :: w in freq ==> freq[w] == multiset(AllTokens(tk, detect, docs))[w]
    ensures Total(freq) == |AllTokens(tk, detect, docs)|
    ensures freq == map[] <==> forall i :: 0 <= i < |docs| ==> SnippetTokens(tk, detect, docs[i]) == []
  {
    var allTokens: seq<string> := [];
    ghost var tokensOf := doc => SnippetTokens(tk, detect, doc);
    for i := 0 to |docs|
      invariant allTokens == Gather(tokensOf, docs[..i])
    {
      var lang: string;
      match detect(docs[i]) {
        case Some(detected) => lang := detected;
        case None => lang := "en";
      }
      assert docs[..i + 1][..i] == docs[..i];
      allTokens := allTokens + TokenizeAndClean(tk, docs[i], lang);
    }
    assert docs[..|docs|] == docs;
    freq := Count(allTokens);
    GatherEmpty(tokensOf, docs);
    if allTokens != [] {
      assert allTokens[0] in freq;
    }
    count := |docs|;
  }

  /** A snippet whose language is detected is tokenized with the detected
      code. */
  lemma DetectionSuccessUsesDetected(tk: Tokenizers, detect: string -> Option<string>, doc: string, lang: string)
    requires detect(doc) == Some(lang)
    ensures SnippetTokens(tk, detect, doc) == TokenizeAndClean(tk, doc, lang)
  {
  }

  /** A snippet whose language cannot be detected is tokenized by the
      English policy: only lower-case alphabetic words that are not English
      stop words come out of it. */
  lemma DetectionFailureUsesEnglish(tk: Tokenizers, detect: string -> Option<string>, doc: string, t: string)
    requires detect(doc) == None
    ensures t in SnippetTokens(tk, detect, doc) <==>
      exists w :: w in tk.wordTokenize(doc) && IsAlpha(w) && Lower(w) !in Stopwords.StopwordsEn && Lower(w) == t
    ensures t in SnippetTokens(tk, detect, doc) ==> IsAlpha(t) && IsLowerCase(t) && t !in Stopwords.StopwordsEn
  {
    EnglishBranch(tk, doc, "en", t);
  }
}
