/**
 Filename synthesis (`generate_filename_from_text`): lowercase the text, strip
 everything outside `[a-zA-Z\s]`, tokenize, drop the stopwords of the base
 language, join the first three surviving tokens with `_` (or use `speech`)
 and append `.mp3`.
 */
module Filename {
  import opened Text

  /** The stopword corpus: the lists it has, by base language. A language
      without a list is absent, which is where the corpus reader fails and
      the tool falls back to no filtering. */
  type Corpus = map<string, set<string>>

  const Extension: string := ".mp3"
  const Fallback: string := "speech"
  const MaxKeywords: nat := 3

  /** The characters the pattern `[^a-zA-Z\s]` leaves in place. */
  predicate Kept(c: char) { IsLetter(c) || IsSpace(c) }

  /** `re.sub(r'[^a-zA-Z\s]', '', s)`: delete every character not kept. */
  function Strip(s: string): (r: string)
    ensures |r| <= |s|
    ensures forall c :: c in r <==> c in s && Kept(c)
  {
    if |s| == 0 then []
    else (if Kept(s[0]) then [s[0]] else []) + Strip(s[1..])
  }

  /** Stripping works piecewise, so characters keep their relative order. */
  lemma {:induction false} StripAppend(a: string, b: string)
    ensures Strip(a + b) == Strip(a) + Strip(b)
  {
    if |a| > 0 {
      StripAppend(a[1..], b);
      assert (a + b)[1..] == a[1..] + b;
    } else {
      assert a + b == b;
    }
  }

  /** A string of kept characters is left unchanged, so stripping is idempotent. */
  lemma {:induction false} StripKeepsKept(s: string)
    requires forall k :: 0 <= k < |s| ==> Kept(s[k])
    ensures Strip(s) == s
  {
    if |s| > 0 {
      StripKeepsKept(s[1..]);
    }
  }

  /** A lowercase letter or a whitespace character. */
  predicate CleanChar(c: char) { IsLower(c) || IsSpace(c) }

  /** The text after lowercasing and stripping. */
  function Clean(text: string): (r: string)
    ensures forall c :: c in r ==> CleanChar(c)
  {
    var l := Lower(text);
    assert forall c :: c in l ==> !IsUpper(c);
    Strip(l)
  }

  /** A keyword candidate: a non-empty run of lowercase ASCII letters. */
  predicate LowerWord(w: string) {
    |w| > 0 && forall k :: 0 <= k < |w| ==> IsLower(w[k])
  }

  /** The tokens of the cleaned text, split at whitespace. */
  function Tokens(text: string): (ts: seq<string>)
    ensures forall k :: 0 <= k < |ts| ==> LowerWord(ts[k])
  {
    var s := Clean(text);
    var ws := Words(s);
    assert forall k :: 0 <= k < |ws| ==> LowerWord(ws[k]) by {
      forall k, j | 0 <= k < |ws| && 0 <= j < |ws[k]|
        ensures IsLower(ws[k][j])
      {
        WordsChars(s, k, j);
      }
    }
    ws
  }

  /** `lang_code.split('-')[0]`: the language code up to its first `-`. */
  function BaseLanguage(code: string): (b: string)
    ensures '-' !in b
    ensures StartsWith(code, b)
    ensures b == code || code[|b|] == '-'
  {
    if '-' in code then
      var i := FirstIndex(code, '-');
      assert Split(code, '-')[0] == code[..i];
      Split(code, '-')[0]
    else
      Split(code, '-')[0]
  }

  /** The stopword set for a language code; an unsupported base language
      gives the empty set rather than an error. */
  function Stopwords(corpus: Corpus, code: string): (stops: set<string>)
    ensures BaseLanguage(code) in corpus ==> stops == corpus[BaseLanguage(code)]
    ensures BaseLanguage(code) !in corpus ==> stops == {}
  {
    var lang := BaseLanguage(code);
    if lang in corpus then corpus[lang] else {}
  }

  /** `[w for w in words if w not in stops]`. */
  function RemoveStopwords(words: seq<string>, stops: set<string>): (r: seq<string>)
    ensures |r| <= |words|
    ensures forall k :: 0 <= k < |r| ==> r[k] !in stops
    ensures forall w :: w in r <==> w in words && w !in stops
  {
    if |words| == 0 then []
    else (if words[0] in stops then [] else [words[0]]) + RemoveStopwords(words[1..], stops)
  }

  /** An empty stopword set drops nothing. */
  lemma {:induction false} RemoveNothing(words: seq<string>)
    ensures RemoveStopwords(words, {}) == words
  {
    if |words| > 0 {
      RemoveNothing(words[1..]);
      assert words == [words[0]] + words[1..];
    }
  }

  /** Filtering works piecewise, so surviving tokens keep their order. */
  lemma {:induction false} RemoveStopwordsAppend(a: seq<string>, b: seq<string>, stops: set<string>)
    ensures RemoveStopwords(a + b, stops) == RemoveStopwords(a, stops) + RemoveStopwords(b, stops)
  {
    if |a| > 0 {
      RemoveStopwordsAppend(a[1..], b, stops);
      assert (a + b)[1..] == a[1..] + b;
    } else {
      assert a + b == b;
    }
  }

  /** The tokens that survive stopword filtering. */
  function Keywords(text: string, code: string, corpus: Corpus): (ks: seq<string>)
    ensures forall k :: 0 <= k < |ks| ==> LowerWord(ks[k]) && ks[k] !in Stopwords(corpus, code)
    ensures forall w :: w in ks <==> w in Tokens(text) && w !in Stopwords(corpus, code)
  {
    RemoveStopwords(Tokens(text), Stopwords(corpus, code))
  }

  function Min(a: nat, b: nat): nat { if a <= b then a else b }

  /** The part of the filename before the extension. */
  function Stem(kept: seq<string>): (stem: string)
    requires forall k :: 0 <= k < |kept| ==> LowerWord(kept[k])
    ensures |stem| > 0
    ensures forall k :: 0 <= k < |stem| ==> IsLower(stem[k]) || stem[k] == '_'
  {
    if |kept| > 0 then
      var first := kept[..Min(MaxKeywords, |kept|)];
      var s := Join(first, '_');
      assert forall k :: 0 <= k < |s| ==> IsLower(s[k]) || s[k] == '_' by {
        forall k | 0 <= k < |s|
          ensures IsLower(s[k]) || s[k] == '_'
        {
          JoinChars(first, '_', k);
          if s[k] != '_' {
            var j :| 0 <= j < |first| && s[k] in first[j];
            assert LowerWord(first[j]);
            var i :| 0 <= i < |first[j]| && first[j][i] == s[k];
          }
        }
      }
      assert LowerWord(first[0]);
      s
    else
      Fallback
  }

  /** `generate_filename_from_text`. */
  function GenerateFilename(text: string, code: string, corpus: Corpus): (f: string)
    ensures |f| > |Extension| && f[|f| - |Extension|..] == Extension
  {
    Stem(Keywords(text, code, corpus)) + Extension
  }

  // ---------------------------------------------------------------------------
  // Properties of the generated name
  // ---------------------------------------------------------------------------

  /** Splitting the stem at `_` recovers the first (at most three) surviving
      tokens in their original order; with none surviving the stem is `speech`. */
  lemma StemKeywords(kept: seq<string>)
    requires forall k :: 0 <= k < |kept| ==> LowerWord(kept[k])
    ensures |kept| == 0 ==> Stem(kept) == Fallback
    ensures |kept| > 0 ==> Split(Stem(kept), '_') == kept[..Min(MaxKeywords, |kept|)]
    ensures |kept| > 0 ==> multiset(Stem(kept))['_'] == Min(MaxKeywords, |kept|) - 1
  {
    if |kept| > 0 {
      var first := kept[..Min(MaxKeywords, |kept|)];
      assert forall k :: 0 <= k < |first| ==> '_' !in first[k] by {
        forall k | 0 <= k < |first| ensures '_' !in first[k] {
          assert LowerWord(first[k]);
        }
      }
      SplitJoin(first, '_');
      JoinSeparatorCount(first, '_');
    }
  }

  /** The whole filename: a stem of lowercase letters and at most two
      underscores, then `.mp3`; the stem lists the first surviving tokens. */
  lemma FilenameShape(text: string, code: string, corpus: Corpus)
    ensures var f := GenerateFilename(text, code, corpus);
            var stem := f[..|f| - |Extension|];
            var ks := Keywords(text, code, corpus);
            && f == stem + Extension
            && |stem| > 0
            && (forall k :: 0 <= k < |stem| ==> IsLower(stem[k]) || stem[k] == '_')
            && multiset(stem)['_'] <= 2
            && (|ks| == 0 ==> stem == Fallback)
            && (|ks| > 0 ==> Split(stem, '_') == ks[..Min(MaxKeywords, |ks|)])
  {
    var ks := Keywords(text, code, corpus);
    var f := GenerateFilename(text, code, corpus);
    assert f[..|f| - |Extension|] == Stem(ks);
    StemKeywords(ks);
    if |ks| == 0 {
      assert multiset(Fallback)['_'] == 0;
    }
  }

  /** An unsupported base language filters nothing: every token survives. */
  lemma UnsupportedLanguage(text: string, code: string, corpus: Corpus)
    requires BaseLanguage(code) !in corpus
    ensures Keywords(text, code, corpus) == Tokens(text)
  {
    RemoveNothing(Tokens(text));
  }

  /** Only the base language matters: a region suffix changes nothing. */
  lemma RegionIgnored(text: string, base: string, region: string, corpus: Corpus)
    requires '-' !in base
    ensures GenerateFilename(text, base + "-" + region, corpus) == GenerateFilename(text, base, corpus)
  {
    var code := base + "-" + region;
    assert code[|base|] == '-' && code[..|base|] == base;
    assert BaseLanguage(code) == base;
  }

  // ---------------------------------------------------------------------------
  // The fallback and the keyword cases, for whole classes of text
  // ---------------------------------------------------------------------------

  /** Text whose every token is a stopword (empty text, all stopwords, only
      symbols) is named `speech.mp3`. */
  lemma NoKeywordsFallback(text: string, code: string, corpus: Corpus)
    requires forall k :: 0 <= k < |Tokens(text)| ==> Tokens(text)[k] in Stopwords(corpus, code)
    ensures GenerateFilename(text, code, corpus) == Fallback + Extension
  {
  }

  /** Empty text is named `speech.mp3` whatever the language. */
  lemma EmptyTextFallback(code: string, corpus: Corpus)
    ensures GenerateFilename("", code, corpus) == "speech.mp3"
  {
    assert Clean("") == "";
    NoKeywordsFallback("", code, corpus);
  }

  /** Lowercase words separated by single spaces, none of them a stopword,
      are named by their first three words joined with `_`. */
  lemma PlainWordsFilename(ws: seq<string>, code: string, corpus: Corpus)
    requires |ws| > 0
    requires forall k :: 0 <= k < |ws| ==> LowerWord(ws[k]) && ws[k] !in Stopwords(corpus, code)
    ensures GenerateFilename(Join(ws, ' '), code, corpus) == Join(ws[..Min(MaxKeywords, |ws|)], '_') + Extension
  {
    PlainWordsKeywords(ws, code, corpus);
  }

  /** Lowercase non-stopwords separated by single spaces all survive, in order. */
  lemma PlainWordsKeywords(ws: seq<string>, code: string, corpus: Corpus)
    requires forall k :: 0 <= k < |ws| ==> LowerWord(ws[k]) && ws[k] !in Stopwords(corpus, code)
    ensures Keywords(Join(ws, ' '), code, corpus) == ws
  {
    var text := Join(ws, ' ');
    CleanOfPlainWords(ws);
    assert forall k :: 0 <= k < |ws| ==> IsWord(ws[k]) by {
      forall k | 0 <= k < |ws| ensures IsWord(ws[k]) {
        assert LowerWord(ws[k]);
      }
    }
    WordsOfJoin(ws);
    assert Tokens(text) == ws;
    RemoveKeepsAll(ws, Stopwords(corpus, code));
  }

  /** Lowercase words and single spaces pass through cleaning unchanged. */
  lemma CleanOfPlainWords(ws: seq<string>)
    requires forall k :: 0 <= k < |ws| ==> LowerWord(ws[k])
    ensures Clean(Join(ws, ' ')) == Join(ws, ' ')
  {
    var text := Join(ws, ' ');
    assert forall k :: 0 <= k < |text| ==> IsLower(text[k]) || text[k] == ' ' by {
      forall k | 0 <= k < |text| ensures IsLower(text[k]) || text[k] == ' ' {
        JoinChars(ws, ' ', k);
        if text[k] != ' ' {
          var j :| 0 <= j < |ws| && text[k] in ws[j];
          assert LowerWord(ws[j]);
          var i :| 0 <= i < |ws[j]| && ws[j][i] == text[k];
        }
      }
    }
    assert Lower(text) == text;
    StripKeepsKept(text);
  }

  /** Filtering keeps every word when none of them is a stopword. */
  lemma {:induction false} RemoveKeepsAll(words: seq<string>, stops: set<string>)
    requires forall k :: 0 <= k < |words| ==> words[k] !in stops
    ensures RemoveStopwords(words, stops) == words
  {
    if |words| > 0 {
      RemoveKeepsAll(words[1..], stops);
      assert words == [words[0]] + words[1..];
    }
  }
}
