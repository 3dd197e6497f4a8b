/**
 * `prepareContext` (src/WebGetter.php) and `_prepareContext`
 * (src/Erebot/Module/WebGetter.php), which are the same code: the context a
 * request starts from holds the bot's locale, the text after the trigger,
 * and every word of the message under its position.
 */
module RequestContext {
  import opened Wrappers
  import opened PhpStrings
  import opened PhpArray
  import opened Formatter

  /** The bot's message locale and what `Locale::parseLocale` makes of it; a missing region is "". */
  datatype Locale = Locale(name: string, language: string, region: string)

  /** The message text: its words, and `getTokens(1)`, the text from the second word on. */
  datatype TextWrapper = TextWrapper(tokens: seq<string>, rest: string)

  /** The five entries written before the words. */
  function Base(locale: Locale, text: TextWrapper): Context {
    [ ("language", Str(locale.language)),
      ("region", Str(locale.region)),
      ("locale", Str(locale.name)),
      ("locale2", Str(ReplaceChar(locale.name, '_', '-'))),
      ("0", Str(text.rest)) ]
  }

  /** The entries for words 1 .. n-1, in order. */
  function WordsUpTo(tokens: seq<string>, n: nat): Context
    requires n <= |tokens|
  {
    if n <= 1 then [] else WordsUpTo(tokens, n - 1) + [(Dec(n - 1), Str(tokens[n - 1]))]
  }

  /** The context `prepareContext` returns. */
  function ContextOf(locale: Locale, text: TextWrapper): Context {
    Base(locale, text) + WordsUpTo(text.tokens, |text.tokens|)
  }

  lemma {:induction false} WordsUpToShape(tokens: seq<string>, n: nat)
    requires n <= |tokens|
    ensures |WordsUpTo(tokens, n)| == if n <= 1 then 0 else n - 1
    ensures forall j :: 0 <= j < |WordsUpTo(tokens, n)| ==> WordsUpTo(tokens, n)[j] == (Dec(j + 1), Str(tokens[j + 1]))
    decreases n
  {
    if n > 1 {
      WordsUpToShape(tokens, n - 1);
    }
  }

  /** A word's key `Dec(i)`, i >= 1, is none of the base keys. */
  lemma WordKeyIsNew(i: nat, k: string)
    requires i >= 1 && k in ["language", "region", "locale", "locale2", "0"]
    ensures Dec(i) != k
  {
    assert IsDigit(Dec(i)[0]);
  }

  /** Keys are unique, so every key denotes one entry. */
  lemma ContextKeysUnique(locale: Locale, text: TextWrapper, n: nat)
    requires n <= |text.tokens|
    ensures UniqueKeys(Base(locale, text) + WordsUpTo(text.tokens, n))
  {
    var b := Base(locale, text);
    var w := WordsUpTo(text.tokens, n);
    var ctx := b + w;
    WordsUpToShape(text.tokens, n);
    forall i, j | 0 <= i < j < |ctx| ensures ctx[i].0 != ctx[j].0 {
      if j >= |b| {
        assert ctx[j] == w[j - |b|];
        if i >= |b| {
          assert ctx[i] == w[i - |b|];
          if ctx[i].0 == ctx[j].0 {
            DecInjective(i - |b| + 1, j - |b| + 1);
          }
        } else {
          WordKeyIsNew(j - |b| + 1, b[i].0);
        }
      }
    }
  }

  /** `prepareContext`: the base entries, then word i under key "i" for every word after the first. */
  method PrepareContext(locale: Locale, text: TextWrapper) returns (ctx: Context)
    ensures ctx == ContextOf(locale, text)
  {
    ctx := Base(locale, text);
    var i := 0;
    while i < |text.tokens|
      invariant 0 <= i <= |text.tokens|
      invariant ctx == Base(locale, text) + WordsUpTo(text.tokens, i)
    {
      if i == 0 {
        i := i + 1;
        continue;
      }
      WordsUpToShape(text.tokens, i);
      assert !HasKey(ctx, Dec(i)) by {
        if HasKey(ctx, Dec(i)) {
          var j :| 0 <= j < |ctx| && ctx[j].0 == Dec(i);
          if j >= 5 {
            assert ctx[j] == WordsUpTo(text.tokens, i)[j - 5];
            DecInjective(j - 4, i);
          } else {
            WordKeyIsNew(i, ctx[j].0);
          }
        }
      }
      PutSpec(ctx, Dec(i), Str(text.tokens[i]));
      ctx := Put(ctx, Dec(i), Str(text.tokens[i]));
      i := i + 1;
    }
  }

  /** What the context holds: the locale, its `_`-to-`-` variant, the rest of the text and each word. */
  lemma ContextLookups(locale: Locale, text: TextWrapper)
    ensures UniqueKeys(ContextOf(locale, text))
    ensures Get(ContextOf(locale, text), "language") == Some(Str(locale.language))
    ensures Get(ContextOf(locale, text), "region") == Some(Str(locale.region))
    ensures Get(ContextOf(locale, text), "locale") == Some(Str(locale.name))
    ensures Get(ContextOf(locale, text), "locale2") == Some(Str(ReplaceChar(locale.name, '_', '-')))
    ensures Get(ContextOf(locale, text), "0") == Some(Str(text.rest))
    ensures forall i :: 1 <= i < |text.tokens| ==> Get(ContextOf(locale, text), Dec(i)) == Some(Str(text.tokens[i]))
  {
    var ctx := ContextOf(locale, text);
    ContextKeysUnique(locale, text, |text.tokens|);
    GetAt(ctx, 0);
    GetAt(ctx, 1);
    GetAt(ctx, 2);
    GetAt(ctx, 3);
    GetAt(ctx, 4);
    WordsUpToShape(text.tokens, |text.tokens|);
    forall i | 1 <= i < |text.tokens| ensures Get(ctx, Dec(i)) == Some(Str(text.tokens[i])) {
      GetAt(ctx, 4 + i);
    }
  }

  /** The order of the context: the five base keys, then "1", "2", … in the order of the words. */
  lemma ContextOrder(locale: Locale, text: TextWrapper)
    ensures |ContextOf(locale, text)| == 5 + (if |text.tokens| <= 1 then 0 else |text.tokens| - 1)
    ensures ContextOf(locale, text)[..5] == Base(locale, text)
    ensures forall i :: 1 <= i < |text.tokens| ==> ContextOf(locale, text)[4 + i] == (Dec(i), Str(text.tokens[i]))
  {
    WordsUpToShape(text.tokens, |text.tokens|);
  }

  /** Every key is plain (no `%` and no `)`), as the formatter's placeholder theorem asks. */
  lemma ContextKeysPlain(locale: Locale, text: TextWrapper)
    ensures PlainKeys(ContextOf(locale, text))
  {
    var ctx := ContextOf(locale, text);
    WordsUpToShape(text.tokens, |text.tokens|);
    forall i | 0 <= i < |ctx| ensures PlainKey(ctx[i].0) {
      if i >= 5 {
        assert ctx[i] == WordsUpTo(text.tokens, |text.tokens|)[i - 5];
        assert AllDigits(Dec(i - 4));
      }
    }
  }
}
