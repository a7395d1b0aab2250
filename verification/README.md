# simplei18n in Dafny

A model of the core of simplei18n, a small PHP localisation library, with
proofs of what it promises. The core has three parts:

- **The message store** (`ArrayCache`): a table from language code to
  message key to text. It lists its languages and looks a key up in a list
  of languages, first hit wins.
- **The language context** (`I18nContext`): the store, a default language,
  and a current language that is detected on first use. Detection takes the
  request's `uselang` parameter, else the session's `uselang`, else the
  first language of the Accept-Language header that the store has, else the
  default. It then remembers the choice in the session. `qqx` is a debug
  pseudo-language that is always accepted and never remembered. The
  Accept-Language parser (`AcceptLanguage`) does the following:
  - strips whitespace and splits on commas;
  - reads `tag;q=weight` entries;
  - drops `*` and non-positive weights;
  - lower-cases tags, where a later entry for a tag replaces an earlier one;
  - ranks entries by weight, with header order breaking ties.
- **Messages** (`Messages`): a key, positional parameters and an output
  format. Rendering takes these steps:
  1. look the key up in the current language, then in the default one;
  2. fall back to `<key>` when neither has it;
  3. replace `$1`, `$2`, … by the parameters in one pass of PHP's `strtr`
     (`Substitution`);
  4. in the escaped format, apply `htmlspecialchars` with `ENT_QUOTES` and
     without double encoding (`Html`).

  In `qqx` a message renders as `(key)`. The lookup result is cached in the
  message, so a message is looked up at most once.

PHP's mutable objects and superglobals become values:
- A `Context` and a `Message` are immutable datatypes.
- Every operation that may detect the language returns an `Outcome` or
  `Chosen`. These carry the result, the updated message and context, and
  the session after the call.
- `$_REQUEST['uselang']` and the Accept-Language header are a `Request`
  input.
- `$_SESSION` is a `map<string, string>`, threaded from call to call.

The PHP `string|false` result of a lookup is `Hit` (`Found(text)` or
`NotFound`). A table entry holding `null` is `None`, which `isset` skips.

Each operation has a partner property:
- the parser has a reference definition of the preference order
  (`AcceptLanguage.IsPreferenceOrder`), which is proved unique and matched
  by the parser;
- `strtr` has a compositional law (`Substitution.StrtrSplit`);
- escaping has a characterisation of its fixed points
  (`Html.EscapeFixedPointIff`), idempotence and a decoder that inverts it;
- detection and rendering are proved stable when called again.

The model follows the code in the places where its documented intent reads
differently:
- An Accept-Language header that is present but empty yields the list
  holding the empty tag, not the empty list. `strpos` finds nothing in the
  empty entry, so that entry gets weight 1.
- When a tag occurs twice, the pair stored for it is the last occurrence
  that survives the filter. A later `*` entry or zero-weight entry never
  removes an earlier one.
- A `;q=` at the very start of an entry is not a separator, because
  `strpos` returning 0 is falsy. The whole entry is then a tag of weight 1.

## Model

| member | source | states |
|---|---|---|
| ArrayCache.AvailableLanguages | src/ArrayCache.php:43-45 | The listed languages are exactly the store's languages, each listed once. |
| ArrayCache.Get | src/ArrayCache.php:47-57 | A lookup finds text iff some listed language holds the key with a non-null value. The text comes from the first such language, and every earlier language lacks the key. |
| ArrayCache.GetSingleAndEmpty | src/ArrayCache.php:48-50 | A single language code behaves as the one-element list, and the empty list finds nothing. |
| ArrayCache.GetSkipsNull | src/ArrayCache.php:52-54 | A null entry is not a hit: the lookup goes on to the next language. |
| ArrayCache.ExampleTableLookups | tests/ArrayCacheTest.php:35-46 | In the two-language store, the languages are listed in order. Each language finds its own `lang` text, and neither finds an unknown key. |
| I18nContext.NewContext | src/I18nContext.php:74-82 | A new context holds the given store and default, and no current language is chosen yet. |
| I18nContext.SetDefaultLanguage | src/I18nContext.php:87-89 | Replaces the default language and nothing else. |
| I18nContext.GetDefaultLanguage | src/I18nContext.php:94-96 | The value read is the default itself: setting the default to it leaves the context exactly as it was. |
| I18nContext.DefaultLanguageRoundTrip | src/I18nContext.php:87-96 | The default read back is the one last set, and a second set overrides the first. |
| I18nContext.AvailableLanguages | src/I18nContext.php:108-110 | The context offers exactly the store's languages. |
| I18nContext.SetCurrentLanguage | src/I18nContext.php:115-125 | The chosen language is the requested one iff it is `qqx`, the store has it, or it is the default. Otherwise it is the default. A choice other than `qqx` is written to the session under `uselang`. `qqx` leaves the session as it was. No other session key changes. |
| I18nContext.SetCurrentIdempotent | src/I18nContext.php:115-125 | Setting the same language twice is the same as setting it once. |
| I18nContext.FirstAvailable | src/I18nContext.php:155-160 | `array_intersect` followed by `current` gives the first wanted language the store has. It gives none exactly when no wanted language is available. |
| I18nContext.Requested | src/I18nContext.php:144-161 | The language detection asks for is the request's `uselang` when there is one. Otherwise it is the session's `uselang`. Otherwise it is the earliest header preference the store has, or the default when the store has none of them. |
| I18nContext.GetCurrentLanguage | src/I18nContext.php:143-165 | A language already chosen is returned with nothing changed. Otherwise the result is an allowed language and becomes the current one. The store and the default are untouched. |
| I18nContext.SetThenGet | src/I18nContext.php:115-165 | After a language is set, it is returned whatever the request and session say. |
| I18nContext.DetectOnce | src/I18nContext.php:144-164 | Detection happens once: a second call returns the same language, changes nothing and ignores new inputs. |
| I18nContext.RequestWins | src/I18nContext.php:146-147 | A request `uselang` decides the language, checked against the store. The session and the header do not matter. |
| I18nContext.SessionNext | src/I18nContext.php:149-150 | Without a request override, the session's `uselang` decides, checked against the store. The header does not matter. |
| I18nContext.HeaderLast | src/I18nContext.php:152-161 | With neither override, the result is the first header preference the store has. When the store has none of them, it is the default. |
| I18nContext.DetectedIsRemembered | src/I18nContext.php:115-164 | A freshly detected language other than `qqx` is stored in the session, and every other session key is kept. |
| I18nContextExamples.FromRequest | tests/I18nContextTest.php:77-91 | In the test fixture, request `en` gives `en`. An absent request `uselang`, `""` and `fr` each give `default`. The session ends up holding the result. |
| I18nContextExamples.FromSession | tests/I18nContextTest.php:99-113 | In the test fixture, session `en` gives `en`. Sessions `""` and `fr`, and a session without `uselang` when there is no header, give `default`. |
| I18nContextExamples.FromHeader | tests/I18nContextTest.php:122-131 | The header `bar;q=0.8,baz,en-us,en,default` selects `en`. |
| I18nContextExamples.HeaderFallsBack | tests/I18nContextTest.php:132-134 | An absent, an empty and an unknown header each select `default`. |
| AcceptLanguage.ParseWeightDecimal | src/I18nContext.php:199 | The float cast reads `digits.digits` as its exact decimal value. |
| AcceptLanguage.ParseWeight | src/I18nContext.php:199 | The float cast reads text that does not start with a sign, digit or point as 0. The weight is negative only when the text starts with `-`. |
| AcceptLanguage.ParsePart | src/I18nContext.php:196-204 | An entry without `;q=` is a bare tag of weight 1, and so is an entry whose first `;q=` is at offset 0. Otherwise the tag is the non-empty text before the first `;q=`, and the weight is read from the text up to the next `;q=`. |
| AcceptLanguage.Collect | src/I18nContext.php:195-211 | The table built by the loop holds one entry per tag. Each entry is the last occurrence of its tag that survives the filter, and every surviving tag is present. |
| AcceptLanguage.SortByRank | src/I18nContext.php:213 | Sorting keeps exactly the same entries and orders them by (weight, -position) descending. |
| AcceptLanguage.ParseAcceptLanguage | src/I18nContext.php:184-215 | An absent header gives no tags. A present one gives the tags of its ranked table, in order. |
| AcceptLanguage.PreferenceOrderUnique | src/I18nContext.php:206-214 | The reference definition of the result has only one solution: distinct tags, last surviving occurrences, all surviving tags, strictly ranked. |
| AcceptLanguage.ParseIsPreferenceOrder | src/I18nContext.php:184-215 | The parse is the list of tags of the reference preference order. |
| AcceptLanguage.ParseTagsLowerNotStar | src/I18nContext.php:206-209 | Every returned tag is lower-case and is not `*`. |
| AcceptLanguage.ParseTagsDistinct | src/I18nContext.php:209-214 | No tag is returned twice. |
| AcceptLanguage.ParseTagsComplete | src/I18nContext.php:206-214 | A tag is returned iff some entry with that tag (lower-cased) has a tag other than `*` and a positive weight. |
| AcceptLanguage.ParseRelativeOrder | src/I18nContext.php:209-214 | Two returned tags appear in rank order: the one whose stored entry has the higher weight comes first, and header order breaks ties. |
| AcceptLanguage.ParseInHeaderOrder | src/I18nContext.php:206-214 | A header of distinct kept tags with non-increasing weights parses to its tags in header order. |
| AcceptLanguage.ParseIgnoresWhitespace | src/I18nContext.php:192 | Inserting whitespace anywhere in the header does not change the result. |
| AcceptLanguage.ParseAbsentAndEmpty | src/I18nContext.php:185-187 | An absent header gives no tags, and a present empty header gives the empty tag. |
| AcceptLanguageExamples.StarAlone | tests/I18nContextTest.php:56 | `*` gives no tags. |
| AcceptLanguageExamples.CaseFolded | tests/I18nContextTest.php:58 | `En` gives `en`. |
| AcceptLanguageExamples.ZeroWeight | tests/I18nContextTest.php:59 | `en;q=0` gives no tags. |
| AcceptLanguageVectors.DescendingWeights | tests/I18nContextTest.php:60-63 | `en-ca,en;q=0.8,en-us;q=0.6,de-de;q=0.4,de;q=0.2` gives its tags in header order. |
| AcceptLanguageVectors.SpacedWeights | tests/I18nContextTest.php:64-67 | `en-us, en-gb; q=0.8,en;q = 0.6,es-419` gives `en-us, es-419, en-gb, en`. |
| AcceptLanguageVectors.MixedWeights | tests/I18nContextTest.php:133 | `bar;q=0.8,baz,en-us,en,default` ranks the bare tags in header order, followed by `bar`. |
| Messages.NewMessage | src/Message.php:67-77 | A new message has the given key and parameters, renders plain, and has not been looked up yet. |
| Messages.Params | src/Message.php:101-109 | The old parameters are kept in front. When the first argument is an array, its elements are appended; otherwise the arguments themselves are appended. |
| Messages.ParamsArrayForm | src/Message.php:103-105 | Passing one array is the same as passing its elements one by one. |
| Messages.ParamsTwice | src/Message.php:106-107 | Two calls append like one call with both argument lists. |
| Messages.Fetch | src/Message.php:130-140 | A cached answer is returned with nothing changed. Otherwise the current language is chosen. The text is found iff the current or the default language has the key, it comes from one of them, and the current language has priority. The answer, found or not, is then cached. |
| Messages.FetchOnce | src/Message.php:131-139 | A fetched message keeps its answer: later fetches return it whatever the context, request and session. |
| Messages.Exists | src/Message.php:130-147 | For a message not yet looked up, the result is true iff the message store has the key for the current language or for the default language. For a message already looked up, the result is whether that earlier lookup found text, and the context and session are unchanged. The answer is cached, and the store and default language are never touched. |
| Messages.IsBlank | src/Message.php:130-155 | For a message not yet looked up, the result is true in three cases: neither the current nor the default language has the key; the current language has it with empty text; or only the default has it, with empty text. For a message already looked up, it is true iff that lookup found nothing or found the empty text. |
| Messages.BlankIffMissingOrEmpty | src/Message.php:145-155 | A message is blank iff it does not exist or its text is empty. A missing message is blank. |
| Messages.ToString | src/Message.php:160-190 | Rendering keeps the key, the parameters and the format, and always leaves a current language. In `qqx` it renders `(key)` and the message is not looked up. Otherwise the lookup is cached, and the text is the cached answer (or `<key>` when nothing was found) with `$N` replaced by the N-th parameter, run through `htmlspecialchars` in the escaped format. |
| Messages.Plain | src/Message.php:192-195 | Plain rendering leaves the message in the plain format with its key and parameters. |
| Messages.Escaped | src/Message.php:197-200 | Escaped rendering leaves the message in the escaped format with its key and parameters. |
| Messages.QqxRendersKey | src/Message.php:161-164 | In `qqx` both formats render `(key)`, unescaped, and nothing is looked up. |
| Messages.EscapedIsEscapedPlain | src/Message.php:184-187 | Outside `qqx`, the escaped rendering is `htmlspecialchars` of the plain rendering, with the same context and session. |
| Messages.EscapedIsStable | src/Message.php:184-187 | The escaped rendering is well-escaped: escaping it again changes nothing. |
| Messages.RenderAgain | src/Message.php:160-190 | Rendering again in the context left by a first rendering gives the same text and changes nothing, whatever the new request and session. |
| Messages.RenderFound | src/Message.php:130-182 | Outside `qqx`, a key that the current language has renders as that language's text with the placeholders replaced. This holds whether the current language was already set or is detected now. The message exists, and it is blank iff the text is empty. |
| Messages.RenderDefault | src/Message.php:130-182 | Outside `qqx`, a key that the current language lacks but the default language has renders as the default's text with the placeholders replaced. The message exists, and it is blank iff that text is empty. |
| Messages.RenderMissing | src/Message.php:130-182 | Outside `qqx`, a key that neither the current nor the default language has renders as `<key>`, with placeholders replaced. The message does not exist and is blank. |
| Messages.PlainOfFetch | src/Message.php:160-182 | Outside `qqx`, the plain rendering of a message not yet looked up is the answer of its lookup, or `<key>`, with the placeholders replaced. This holds although rendering first chooses the current language. |
| Substitution.LongestMatch | src/Message.php:182 | `strtr` picks, at each offset, a non-empty key that occurs there and is at least as long as every other key that occurs there. It picks none when no key occurs there. |
| Substitution.Placeholders | src/Message.php:178-181 | Parameter `n` (from 0) is bound to the placeholder `$` followed by the decimal digits of `n + 1`, in order. |
| Substitution.KeyInjective | src/Message.php:180 | Different parameters get different placeholders. |
| Substitution.Strtr | src/Message.php:182 | With a table that maps every key to itself, `strtr` returns its input: matched text becomes exactly its replacement, and the rest is copied. |
| Substitution.StrtrNoMatch | src/Message.php:182 | Text where no key occurs is copied unchanged. |
| Substitution.StrtrSplit | src/Message.php:182 | Substitution distributes over a split before a non-digit: no placeholder straddles it. |
| Substitution.PlaceholderFree | src/Message.php:177-182 | Text without `$` is unchanged. |
| Substitution.PlaceholderReplaced | src/Message.php:177-182 | `$k` followed by a non-digit, with `k` at most the number of parameters, becomes the `k`-th parameter. Replacement text is not scanned again. |
| Substitution.PlaceholderMissing | src/Message.php:177-182 | A one-digit `$k` beyond the parameters stays as it is. |
| Substitution.BracketedPair | src/Message.php:177-182 | `<$i $j>` becomes `<` parameter `i`, a space, parameter `j`, then `>`. |
| Html.Html401Basic | src/Message.php:186 | The HTML 4.01 entity table used by `htmlspecialchars` holds `amp`, `lt`, `gt` and `quot`. |
| Html.EntityLength | src/Message.php:186 | A recognised entity lies within the text, has at least two characters, and ends with `;`. |
| Html.EntityAgree | src/Message.php:186 | Whether text starts with an entity depends only on that entity's own characters. |
| Html.EscapeWellEscaped | src/Message.php:186 | Escaped text has no `<`, `>`, `"` or `'`, and every `&` in it starts a valid entity. |
| Html.EscapeFixedPoint | src/Message.php:186 | Well-escaped text is left unchanged. |
| Html.FixedPointWellEscaped | src/Message.php:186 | Text that escaping leaves unchanged is well-escaped. |
| Html.EscapeFixedPointIff | src/Message.php:186 | Escaping leaves text unchanged iff it is well-escaped. |
| Html.EscapeIdempotent | src/Message.php:186 | Escaping twice is escaping once: existing entities are not encoded again. |
| Html.Escape | src/Message.php:186 | Escaping never shortens the text. Text without `&`, `<`, `>`, `"` or `'` is unchanged. |
| Html.EscapeConcat | src/Message.php:186 | Text without `&` escapes the same on its own, whatever follows it. |
| Html.DecodeEscape | src/Message.php:186 | Decoding the five produced entities undoes escaping of text that holds no entity of its own. |
| Html.EscapeBracketed | src/Message.php:186 | `<t>` for plain `t` escapes to `&lt;t&gt;`. |
| MessageExamples.NoParameters | tests/MessageTest.php:56-62 | `<something>` renders plain as itself and escaped as `&lt;something&gt;`. |
| MessageExamples.OneParameter | tests/MessageTest.php:63-69 | `<$1>` with `something` renders `<something>`, and escaped `&lt;something&gt;`. |
| MessageExamples.MissingParameter | tests/MessageTest.php:70-76 | `<$1>` without parameters renders `<$1>`, and escaped `&lt;$1&gt;`. |
| MessageExamples.MissingKey | tests/MessageTest.php:83-92 | A key the store lacks does not exist and is blank. It renders `<missing-key>`, and escaped `&lt;missing-key&gt;`. |
| MessageExamples.NoRescan | tests/TwigExtensionTest.php:75-80 | `<$1 $2>` with `something` and `$3` renders `<something $3>`. The `$3` brought in by a parameter is not replaced. |

## Left out

- `JsonCache`, `MessageCache` (the interface), `TwigExtension` and its unwrapping of parameters: these are outside the core. `JsonCache` reads files, and the others are glue to other libraries.
- The logger: the warning for a missing translation and the error log in `__toString` (src/Message.php:167-173, 206-211) are side effects with no result.
- `__toString` (src/Message.php:202-218): it differs from `toString` only when an exception is caught, and the model has no exceptions.
- The accessors `getMessageCache`, `getKey`, `getParams`, `getFormat` and `getI18nContext`: they are field reads of the datatypes.
- Reference sharing: a PHP message holds its context by reference, so a language detected through one message is seen by all of them. The model threads the context through each call and returns it instead.
- The superglobals `$_REQUEST`, `$_SESSION` and `$_SERVER` are inputs (`Request` and `Session`), not global state.
- PHP's loose comparisons: `in_array` and `!=` compare strings loosely, and numeric-string array keys are converted to integers. Languages and tags are compared by exact string equality here.
- Parameters that are not strings (integers, floats, booleans, objects) are not modelled. `Value` has strings, null (rendered as empty text) and arrays (rendered as `Array`).
- AcceptLanguage.ParseWeight: the weight is read as an exact decimal (sign, digits, fraction, exponent), not as a binary double. Rounding, `INF` and `NAN` are not modelled.
- Html.Escape: invalid UTF-8 input, which makes `htmlspecialchars` return the empty string, is not modelled, because strings are sequences of characters.
- Html.Html401Basic: does not prove that `apos` is absent from the table. The absence still holds by construction, because the table is written out in full.
- Substitution.Strtr: empty search keys are skipped, as PHP does. Placeholders are never empty, so this path is not exercised.
- Substitution.PlaceholderMissing: covers only one-digit placeholders. With fewer than ten parameters, `$10` reads as `$1` followed by `0`, because `strtr` matches the longest key present.
- Whitespace for the header is the ASCII set that PCRE's `\s` matches; Unicode whitespace is not modelled.
