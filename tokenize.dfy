/** `tokenize_and_clean`: pick a tokenizer by language code, filter its
    tokens by that language's rules, then lower-case, strip and drop the
    blank ones. */
module Tokenize {

  import opened Strings
  import opened Stopwords
  import opened Hangul

  /** One token of the Japanese morphological analyser: its surface form
      and its part-of-speech tag (a comma-separated list whose first item
      is the word class). */
  datatype Morpheme = Morpheme(surface: string, partOfSpeech: string)

  /** The third-party tokenizers, left uninterpreted: the Japanese
      morphological analyser, the Chinese segmenter and the English word
      tokenizer. */
  datatype Tokenizers = Tokenizers(
    janome: string -> seq<Morpheme>,
    jieba: string -> seq<string>,
    wordTokenize: string -> seq<string>)

  /** A list comprehension `[x for x in s if p(x)]`. */
  function Filter<T(!new)>(p: T -> bool, s: seq<T>): (r: seq<T>)
    ensures |r| <= |s|
    ensures forall x :: x in r <==> x in s && p(x)
  {
    if s == [] then [] else (if p(s[0]) then [s[0]] else []) + Filter(p, s[1..])
  }

  /** Nothing passes a filter that rejects every element. */
  lemma {:induction false} FilterNone<T(!new)>(p: T -> bool, s: seq<T>)
    requires forall x :: x in s ==> !p(x)
    ensures Filter(p, s) == []
  {
    if s != [] {
      FilterNone(p, s[1..]);
    }
  }

  /** A one-element list keeps its element exactly when it passes. */
  lemma FilterOne<T(!new)>(p: T -> bool, x: T)
    ensures Filter(p, [x]) == if p(x) then [x] else []
  {
    assert [x][1..] == [];
  }

  /** The comprehension keeps order: filtering a concatenation is
      concatenating the filtered pieces. */
  lemma {:induction false} FilterAppend<T(!new)>(p: T -> bool, a: seq<T>, b: seq<T>)
    ensures Filter(p, a + b) == Filter(p, a) + Filter(p, b)
  {
    if a == [] {
      assert a + b == b;
    } else {
      assert (a + b)[0] == a[0];
      assert (a + b)[1..] == a[1..] + b;
      FilterAppend(p, a[1..], b);
    }
  }

  /** The comprehension keeps repeats: an element that passes occurs as
      often as in the input, one that does not occurs not at all. */
  lemma {:induction false} FilterCount<T(!new)>(p: T -> bool, s: seq<T>, x: T)
    ensures multiset(Filter(p, s))[x] == if p(x) then multiset(s)[x] else 0
  {
    if s != [] {
      FilterCount(p, s[1..], x);
      assert s == [s[0]] + s[1..];
    }
  }

  // ---------------------------------------------------------------------
  // The per-language tokenizers
  // ---------------------------------------------------------------------

  /** A Korean run is kept when it is not a stop word. */
  predicate NotKoreanStopword(w: string)
  {
    w !in StopwordsKo
  }

  /** `tokenize_korean`: the Hangul runs that are not stop words; each is a
      non-empty run of Hangul syllables. */
  function TokenizeKorean(text: string): (r: seq<string>)
    ensures forall t :: t in r ==> t != [] && AllHangul(t) && t !in StopwordsKo
  {
    Filter(NotKoreanStopword, HangulRuns(text))
  }

  /** The Korean tokens are exactly the maximal Hangul runs of the text that
      are not stop words, each as often as the text holds it; text without
      Hangul syllables gives none. */
  lemma KoreanTokens(text: string)
    ensures forall t :: t in TokenizeKorean(text) <==> t in HangulRuns(text) && t !in StopwordsKo
    ensures forall t :: multiset(TokenizeKorean(text))[t] == (if t in StopwordsKo then 0 else multiset(HangulRuns(text))[t])
    ensures NoHangul(text) ==> TokenizeKorean(text) == []
  {
    forall t ensures multiset(TokenizeKorean(text))[t] ==
      if t in StopwordsKo then 0 else multiset(HangulRuns(text))[t]
    {
      FilterCount(NotKoreanStopword, HangulRuns(text), t);
    }
    if NoHangul(text) {
      NoHangulNoRuns(text);
    }
  }

  /** Cut the text into maximal Hangul runs and the gaps between them: the
      Korean tokens are those runs, in order and with their repeats, less
      the stop words. */
  lemma KoreanTokensOfCut(text: string, runs: seq<string>, gaps: seq<string>)
    requires IsRunSplit(text, runs, gaps)
    ensures TokenizeKorean(text) == Filter(NotKoreanStopword, runs)
  {
    HangulRunsUnique(text, runs, gaps);
  }

  /** A Japanese token is kept when its word class is noun or adjective. */
  predicate IsContentWord(m: Morpheme)
  {
    "名詞" <= m.partOfSpeech || "形容詞" <= m.partOfSpeech
  }

  function Surfaces(ms: seq<Morpheme>): seq<string>
  {
    seq(|ms|, i requires 0 <= i < |ms| => ms[i].surface)
  }

  /** The Japanese tokens: surfaces of nouns and adjectives, no stop word
      among them and no more of them than morphemes. */
  function JapaneseTokens(tk: Tokenizers, text: string): (r: seq<string>)
    ensures |r| <= |tk.janome(text)|
    ensures forall w :: w in r ==> w !in StopwordsJa
  {
    var content := Surfaces(Filter(IsContentWord, tk.janome(text)));
    Filter((w: string) => w !in StopwordsJa, content)
  }

  /** A Chinese segment is kept when it is not a stop word and is longer
      than one character. */
  predicate IsChineseContentWord(w: string)
  {
    w !in StopwordsZh && |w| > 1
  }

  /** The Chinese tokens: the segments that are not stop words and are
      longer than one character. */
  function ChineseTokens(tk: Tokenizers, text: string): (r: seq<string>)
    ensures forall w :: w in r <==> w in tk.jieba(text) && w !in StopwordsZh && |w| > 1
  {
    Filter(IsChineseContentWord, tk.jieba(text))
  }

  /** An English word is kept when it is alphabetic and its lower-case form
      is not a stop word. */
  predicate IsEnglishContentWord(w: string)
  {
    IsAlpha(w) && Lower(w) !in StopwordsEn
  }

  /** The English tokens: the alphabetic words whose lower-case form is
      not a stop word, as written (the clean-up lower-cases them). */
  function EnglishTokens(tk: Tokenizers, text: string): (r: seq<string>)
    ensures forall w :: w in r <==> w in tk.wordTokenize(text) && IsAlpha(w) && Lower(w) !in StopwordsEn
  {
    Filter(IsEnglishContentWord, tk.wordTokenize(text))
  }

  /** Chinese segments are kept with their repeats. */
  lemma ChineseTokensCount(tk: Tokenizers, text: string, w: string)
    ensures multiset(ChineseTokens(tk, text))[w] ==
      if IsChineseContentWord(w) then multiset(tk.jieba(text))[w] else 0
  {
    FilterCount(IsChineseContentWord, tk.jieba(text), w);
  }

  /** English words are kept with their repeats. */
  lemma EnglishTokensCount(tk: Tokenizers, text: string, w: string)
    ensures multiset(EnglishTokens(tk, text))[w] ==
      if IsEnglishContentWord(w) then multiset(tk.wordTokenize(text))[w] else 0
  {
    FilterCount(IsEnglishContentWord, tk.wordTokenize(text), w);
  }

  /** Every Korean stop word is a Hangul run, so the filter can meet it. */
  lemma KoreanStopwordsHangul()
    ensures forall w :: w in StopwordsKo ==> w != [] && AllHangul(w)
  {
  }

  // ---------------------------------------------------------------------
  // Dispatch and clean-up
  // ---------------------------------------------------------------------

  /** The four tokenizer policies. */
  datatype Branch = Korean | Japanese | Chinese | EnglishDefault

  /** Language codes are compared exactly; every code other than "ko",
      "ja" and "zh" gets the English policy. */
  function SelectBranch(lang: string): (b: Branch)
    ensures b == Korean <==> lang == "ko"
    ensures b == Japanese <==> lang == "ja"
    ensures b == Chinese <==> lang == "zh"
  {
    if lang == "ko" then Korean
    else if lang == "ja" then Japanese
    else if lang == "zh" then Chinese
    else EnglishDefault
  }

  /** The tokens of the chosen policy, before the clean-up: none is a stop
      word of that policy's language; Korean tokens are Hangul runs, Chinese
      ones longer than one character and English ones alphabetic. */
  function BranchTokens(tk: Tokenizers, text: string, lang: string): (r: seq<string>)
    ensures lang == "ko" ==> forall w :: w in r ==> w != [] && AllHangul(w) && w !in StopwordsKo
    ensures lang == "ja" ==> forall w :: w in r ==> w !in StopwordsJa
    ensures lang == "zh" ==> forall w :: w in r ==> w !in StopwordsZh && |w| > 1
    ensures SelectBranch(lang) == EnglishDefault ==>
      forall w :: w in r ==> IsAlpha(w) && Lower(w) !in StopwordsEn
  {
    match SelectBranch(lang)
    case Korean => TokenizeKorean(text)
    case Japanese => JapaneseTokens(tk, text)
    case Chinese => ChineseTokens(tk, text)
    case EnglishDefault => EnglishTokens(tk, text)
  }

  /** `[w.lower().strip() for w in tokens if w.strip()]`: every token that
      comes out is non-blank and already in normal form. */
  function Clean(tokens: seq<string>): (r: seq<string>)
    ensures forall i :: 0 <= i < |r| ==> r[i] != [] && Normalize(r[i]) == r[i]
  {
    if tokens == [] then []
    else
      var w := tokens[0];
      NormalizeFixed(w);
      (if Strip(w) != [] then [Normalize(w)] else []) + Clean(tokens[1..])
  }

  /** `tokenize_and_clean`. */
  function TokenizeAndClean(tk: Tokenizers, text: string, lang: string): (r: seq<string>)
    ensures forall i :: 0 <= i < |r| ==> r[i] != [] && Normalize(r[i]) == r[i]
  {
    Clean(BranchTokens(tk, text, lang))
  }

  /** The clean-up keeps the order of the branch's tokens: cleaning a
      concatenation is concatenating the cleaned pieces. */
  lemma {:induction false} CleanAppend(a: seq<string>, b: seq<string>)
    ensures Clean(a + b) == Clean(a) + Clean(b)
  {
    if a == [] {
      assert a + b == b;
    } else {
      assert (a + b)[0] == a[0];
      assert (a + b)[1..] == a[1..] + b;
      CleanAppend(a[1..], b);
    }
  }

  /** A token comes out of the clean-up exactly when it is the normal form
      of some non-blank input token. */
  lemma {:induction false} CleanMember(tokens: seq<string>, t: string)
    ensures t in Clean(tokens) <==> exists w :: w in tokens && Strip(w) != [] && Normalize(w) == t
  {
    if tokens != [] {
      CleanMember(tokens[1..], t);
      var w := tokens[0];
      if exists v :: v in tokens && Strip(v) != [] && Normalize(v) == t {
        var v :| v in tokens && Strip(v) != [] && Normalize(v) == t;
        if v != w {
          assert v in tokens[1..];
        }
      }
    }
  }

  /** Tokens already non-blank and in normal form pass the clean-up
      unchanged. */
  lemma {:induction false} CleanKeepsNormal(tokens: seq<string>)
    requires forall i :: 0 <= i < |tokens| ==> Strip(tokens[i]) != [] && Normalize(tokens[i]) == tokens[i]
    ensures Clean(tokens) == tokens
  {
    if tokens != [] {
      CleanKeepsNormal(tokens[1..]);
    }
  }

  /** A Hangul run is non-blank and in normal form: Hangul is neither white
      space nor changed by lower-casing. */
  lemma HangulRunNormal(r: string)
    requires r != [] && AllHangul(r)
    ensures Strip(r) == r && Normalize(r) == r
  {
    assert Lower(r) == r;
    assert SkipSpaceForward(r, 0) == 0;
    assert SkipSpaceBackward(r, |r|) == |r|;
  }

  // ---------------------------------------------------------------------
  // What each branch returns
  // ---------------------------------------------------------------------

  /** For "ko" the clean-up changes nothing: the tokens are the maximal
      Hangul runs that are not Korean stop words, in order. */
  lemma KoreanBranch(tk: Tokenizers, text: string)
    ensures TokenizeAndClean(tk, text, "ko") == TokenizeKorean(text)
  {
    var ts := TokenizeKorean(text);
    KoreanTokens(text);
    forall i | 0 <= i < |ts| ensures Strip(ts[i]) != [] && Normalize(ts[i]) == ts[i] {
      assert ts[i] in ts;
      HangulRunNormal(ts[i]);
    }
    CleanKeepsNormal(ts);
  }

  /** The Japanese policy keeps the surfaces of the nouns and adjectives
      that are not Japanese stop words. */
  lemma JapaneseTokensMember(tk: Tokenizers, text: string, w: string)
    ensures w in JapaneseTokens(tk, text) <==>
      w !in StopwordsJa && exists m :: m in tk.janome(text) && IsContentWord(m) && m.surface == w
  {
    var content := Filter(IsContentWord, tk.janome(text));
    if w in Surfaces(content) {
      var i :| 0 <= i < |content| && Surfaces(content)[i] == w;
      assert content[i] in content;
    }
    if exists m :: m in tk.janome(text) && IsContentWord(m) && m.surface == w {
      var m :| m in tk.janome(text) && IsContentWord(m) && m.surface == w;
      var i :| 0 <= i < |content| && content[i] == m;
      assert Surfaces(content)[i] == w;
    }
  }

  /** For "ja" a token is the normal form of the surface of a noun or
      adjective that is not a Japanese stop word. */
  lemma JapaneseBranch(tk: Tokenizers, text: string, t: string)
    ensures t in TokenizeAndClean(tk, text, "ja") <==>
      exists m :: m in tk.janome(text) && IsContentWord(m) && m.surface !in StopwordsJa
                  && Strip(m.surface) != [] && Normalize(m.surface) == t
  {
    var kept := JapaneseTokens(tk, text);
    CleanMember(kept, t);
    if t in TokenizeAndClean(tk, text, "ja") {
      var w :| w in kept && Strip(w) != [] && Normalize(w) == t;
      JapaneseTokensMember(tk, text, w);
    }
    if exists m :: m in tk.janome(text) && IsContentWord(m) && m.surface !in StopwordsJa
                   && Strip(m.surface) != [] && Normalize(m.surface) == t {
      var m :| m in tk.janome(text) && IsContentWord(m) && m.surface !in StopwordsJa
               && Strip(m.surface) != [] && Normalize(m.surface) == t;
      JapaneseTokensMember(tk, text, m.surface);
    }
  }

  /** For "zh" a token is the normal form of a segment that is not a
      Chinese stop word and is longer than one character; the length test
      comes before stripping, so it bounds the result only for segments
      without surrounding white space. */
  lemma ChineseBranch(tk: Tokenizers, text: string, t: string)
    ensures t in TokenizeAndClean(tk, text, "zh") <==>
      exists w :: w in tk.jieba(text) && w !in StopwordsZh && |w| > 1
                  && Strip(w) != [] && Normalize(w) == t
    ensures (forall w :: w in tk.jieba(text) ==> Strip(w) == w) && t in TokenizeAndClean(tk, text, "zh")
      ==> |t| > 1
  {
    var kept := ChineseTokens(tk, text);
    CleanMember(kept, t);
    if (forall w :: w in tk.jieba(text) ==> Strip(w) == w) && t in TokenizeAndClean(tk, text, "zh") {
      var w :| w in kept && Strip(w) != [] && Normalize(w) == t;
      LowerStrip(w);
      assert t == Lower(w);
    }
  }

  /** Every code but "ko", "ja" and "zh" takes the English policy: a token
      is a lower-cased alphabetic word of the word tokenizer whose
      lower-case form is not an English stop word. */
  lemma EnglishBranch(tk: Tokenizers, text: string, lang: string, t: string)
    requires SelectBranch(lang) == EnglishDefault
    ensures t in TokenizeAndClean(tk, text, lang) <==>
      exists w :: w in tk.wordTokenize(text) && IsAlpha(w) && Lower(w) !in StopwordsEn && Lower(w) == t
    ensures t in TokenizeAndClean(tk, text, lang) ==>
      IsAlpha(t) && IsLowerCase(t) && t !in StopwordsEn
  {
    CleanMember(EnglishTokens(tk, text), t);
    if exists w :: w in tk.wordTokenize(text) && IsAlpha(w) && Lower(w) !in StopwordsEn && Lower(w) == t {
      var w :| w in tk.wordTokenize(text) && IsAlpha(w) && Lower(w) !in StopwordsEn && Lower(w) == t;
      AlphaNormalize(w);
      assert w in EnglishTokens(tk, text);
      assert Strip(w) != [] by {
        assert Strip(Lower(w)) == Lower(w);
        LowerStrip(w);
      }
    }
    if exists w :: w in EnglishTokens(tk, text) && Strip(w) != [] && Normalize(w) == t {
      var w :| w in EnglishTokens(tk, text) && Strip(w) != [] && Normalize(w) == t;
      AlphaNormalize(w);
    }
  }

  /** Region-qualified codes do not select a branch of their own. Only
      detected codes reach the choice, and "zh-cn" and "zh-tw", which a
      language detector reports for Chinese, take the English policy; so
      would "zh-CN", though the form's code only reaches the fetch. */
  lemma QualifiedCodesTakeEnglish()
    ensures SelectBranch("zh-CN") == EnglishDefault
    ensures SelectBranch("zh-cn") == EnglishDefault
    ensures SelectBranch("zh-tw") == EnglishDefault
  {
  }

  /** Cleaning one token: it goes when blank, and comes out in normal
      form otherwise. */
  lemma CleanOne(w: string)
    ensures Clean([w]) == if Strip(w) != [] then [Normalize(w)] else []
  {
    assert [w][1..] == [];
  }

  /** Under the English policy, text whose every word is a stop word (in
      any case) or not alphabetic yields no tokens. */
  lemma EnglishAllDropped(tk: Tokenizers, text: string, lang: string)
    requires SelectBranch(lang) == EnglishDefault
    requires forall w :: w in tk.wordTokenize(text) ==> !IsEnglishContentWord(w)
    ensures TokenizeAndClean(tk, text, lang) == []
  {
    FilterNone(IsEnglishContentWord, tk.wordTokenize(text));
  }

  /** A single segment reaches the clean-up when it is not a Chinese stop
      word and is longer than one character. */
  lemma ChineseOneSegment(tk: Tokenizers, text: string, w: string)
    requires tk.jieba(text) == [w]
    ensures TokenizeAndClean(tk, text, "zh") ==
      if w !in StopwordsZh && |w| > 1 then Clean([w]) else []
  {
    FilterOne(IsChineseContentWord, w);
  }

  /** The Chinese length test looks at the segment before it is stripped: a
      segment of a space and one letter passes it and comes out as a token
      of length one. */
  lemma ChineseLengthBeforeStrip(tk: Tokenizers, text: string)
    requires tk.jieba(text) == [" a"]
    ensures TokenizeAndClean(tk, text, "zh") == ["a"]
  {
    ChineseStopwordsUnspaced();
    assert ' ' in " a";
    ChineseOneSegment(tk, text, " a");
    NormalizeExample();
    CleanOne(" a");
  }
}
