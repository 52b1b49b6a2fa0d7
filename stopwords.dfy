/** The stop-word tables: one fixed set of words per supported language,
    discarded by the tokenizer of that language. */
module Stopwords {

  /** Korean stop words. */
  const StopwordsKo: set<string> := {
    "것", "수", "등", "들", "및", "에서", "하다", "까지", "부터", "그리고",
    "그러나", "때문", "이것", "저것", "그것"
  }

  /** Japanese stop words. */
  const StopwordsJa: set<string> := {
    "こと", "これ", "それ", "ため", "よう", "もの", "さん", "して", "いる", "ある",
    "なる", "また", "そして", "しかし"
  }

  /** Chinese stop words. */
  const StopwordsZh: set<string> := {
    "的", "了", "在", "是", "我", "有", "和", "就", "不", "人",
    "都", "一个", "上", "也", "很", "到", "说", "要", "去", "你"
  }

  /** English stop words: a fixed base list extended by four words common
      in headlines. */
  const StopwordsEn: set<string> := {
    "i", "me", "my", "myself", "we", "our", "ours", "ourselves", "you", "your",
    "yours", "yourself", "yourselves", "he", "him", "his", "himself", "she", "her", "hers",
    "herself", "it", "its", "itself", "they", "them", "their", "theirs", "themselves", "what",
    "which", "who", "whom", "this", "that", "these", "those", "am", "is", "are",
    "was", "were", "be", "been", "being", "have", "has", "had", "having", "do",
    "does", "did", "doing", "a", "an", "the", "and", "but", "if", "or",
    "because", "as", "until", "while", "of", "at", "by", "for", "with", "about",
    "against", "between", "into", "through", "during", "before", "after", "above", "below", "to",
    "from", "up", "down", "in", "out", "on", "off", "over", "under", "again",
    "further", "then", "once", "here", "there", "when", "where", "why", "how", "all",
    "any", "both", "each", "few", "more", "most", "other", "some", "such", "no",
    "nor", "not", "only", "own", "same", "so", "than", "too", "very", "s",
    "t", "can", "will", "just", "don", "should", "now"
  } + {"said", "one", "like", "also"}

  /** Every Japanese stop word is a non-empty Hiragana word. */
  lemma JapaneseStopwordsHiragana()
    ensures forall w :: w in StopwordsJa ==> w != [] && forall i :: 0 <= i < |w| ==> '\U{3041}' <= w[i] <= '\U{3096}'
  {
  }

  /** The English table is the base list with the custom words added:
      some members of each part. */
  lemma EnglishStopwordsParts()
    ensures "the" in StopwordsEn && "now" in StopwordsEn
    ensures "said" in StopwordsEn && "one" in StopwordsEn
    ensures "like" in StopwordsEn && "also" in StopwordsEn
  {
  }

  /** No Chinese stop word contains a space. */
  lemma ChineseStopwordsUnspaced()
    ensures forall w :: w in StopwordsZh ==> ' ' !in w
  {
  }
}
