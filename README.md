# Discord embed helpers: a verified model

The library helps a web server get rich embeds of its posts in Discord. It has three parts:

- **`src/utils.ts`**
  - A detector for Discord's crawler, which looks for `discordbot` in the User-Agent, ignoring case.
  - Two HTML escapers: `escapeHtml` for attribute and text use, and `textToHtml` for the Mastodon `content` field.
- **`src/link.ts`**
  - `createActivityLink`, which builds the `<link rel="alternate" type="application/activity+json">` element that points the crawler at the post.
  - That element's href encodes the author handle and the status id with `encodeURIComponent`.
- **`src/status.ts`**
  - `createStatus`, `buildAccount` and `buildMediaAttachments`, which fill a Mastodon API v1 Status record from the caller's options.
  - Every default is applied with JavaScript's `||`.

All of it is pure, so the model is made of datatypes, functions and lemmas:

| module | file | models |
|---|---|---|
| `Wrappers` | `wrappers.dfy` | `Option`, and `Null` for fields whose TypeScript type is `null` |
| `Strings` | `strings.dfy` | prefix test, character count, split at the first occurrence of a character |
| `Utils` | `utils.dfy` | `isDiscordBot`, `escapeHtml`, `textToHtml`, and the inverses of both escapers |
| `UtilsExamples` | `utils_examples.dfy` | input/output examples of the escapers |
| `Uri` | `uri.dfy` | `encodeURIComponent` and `decodeURIComponent` (ECMA-262, section 19.2.6), with full UTF-8; the unescaped set is letters, digits and `- _ . ! ~ * ' ( )` |
| `Link` | `link.dfy` | `createActivityLink`, a reader for the element, and a reader for the host's route |
| `Decimal` | `decimal.dfy` | the decimal text `${n}` of an integer, and reading it back |
| `Types` | `types.dfy` | the input and output records of `src/types.ts` |
| `Status` | `status.dfy` | `createStatus`, `buildAccount`, `buildMediaAttachments` |

How the pieces are modelled:

- **Escapers.** Both escapers are modelled literally, as chains of global single-character replacements in the source's order. Each chain is proved equal to a per-character map, which is possible because `&` is replaced first. Each is also given a grammar for its output and an inverse. The proofs then show:
  - the output has no raw metacharacters;
  - `escapeHtml`'s output length is exact;
  - decoding undoes encoding, and for `escapeHtml` encoding also undoes decoding.
- **The link.** The link is checked two ways:
  - A reader that takes the href back out of the element.
  - A model of the host's `/users/:handle/statuses/:id` route, `Link.RouteParams`. It reads the href text as written: it splits at slashes and percent-decodes, with no URL resolution.

  Together these prove that the handle and the id survive the trip from `createActivityLink` through `Link.RouteParams`.
- **Status records.** Each optional input is an `Option`. `x || d` is modelled literally: `None`, `""`, `0` and `false` all give `d`. The model proves that writing a falsy value into any optional field gives the same status as leaving the field out.

## Model

| member | source | states |
|---|---|---|
| Utils.ContainsIgnoreCase | src/utils.ts:1 | true exactly when some position of the text matches the pattern with ASCII letters compared case-insensitively (`/i` without the `u` flag) |
| Utils.IsDiscordBot | src/utils.ts:4-6 | true exactly when the User-Agent, with absent input read as `""`, contains `discordbot` in any ASCII letter case; absent and empty input give false |
| Utils.IsDiscordBotIgnoresCase | src/utils.ts:1-5 | two User-Agents that differ only in ASCII letter case get the same answer |
| Utils.DiscordCrawlerIsDetected | src/utils.ts:3-5 | Discord's crawler User-Agent (`... Discordbot/2.0 ...`) is recognised |
| Utils.ReplaceAll | src/utils.ts:11 | a global single-character replace leaves text without that character unchanged, removes the character when the replacement does not contain it, keeps every other character of the input, and introduces no character that is not in the input or in the replacement |
| Utils.ReplaceAllConcat | src/utils.ts:11-14 | a global replace distributes over concatenation |
| Utils.EscapeHtml | src/utils.ts:9-15 | the output holds no `<`, `>` or `"`; every character in it comes from the input or from one of the four entities; text without `& " < >` is returned unchanged |
| Utils.EscapeHtmlConcat | src/utils.ts:10-14 | escapeHtml distributes over concatenation |
| Utils.EscapeHtmlOfChar | src/utils.ts:10-14 | on one character the four-step chain gives that character's entity, and does not escape the `&` of an entity inserted earlier |
| Utils.EscapeHtmlIsCharMap | src/utils.ts:9-15 | escapeHtml equals the per-character map `&`→`&amp;`, `"`→`&quot;`, `<`→`&lt;`, `>`→`&gt;`, every other character kept |
| Utils.EscapeHtmlLength | src/utils.ts:11-14 | output length is the input length plus 4 per `&`, 5 per `"`, 3 per `<` and 3 per `>` |
| Utils.EscapeHtmlIdentity | src/utils.ts:9-15 | text without `& " < >` is returned unchanged |
| Utils.EscapeHtmlIsEscaped | src/utils.ts:9-15 | the output is in the escaped-text language: the four entities and characters other than `& " < >` |
| Utils.EscapedTextIsSafe | src/utils.ts:9-15 | escaped text holds no `<`, `>` or `"`, and every `&` in it begins one of the four entities |
| Utils.EscapeHtmlRoundTrip | src/utils.ts:9-15 | the unescaper recovers the input of escapeHtml |
| Utils.EscapeHtmlOfUnescape | src/utils.ts:9-15 | on escaped text, escaping the unescaped text gives the text back, so escapeHtml is a bijection onto the escaped language |
| Utils.TextToHtml | src/utils.ts:21-27 | the output holds no newline; it holds a `"` exactly when the input does; text without `& < >` or newline is returned unchanged |
| Utils.TextToHtmlConcat | src/utils.ts:22-26 | textToHtml distributes over concatenation |
| Utils.TextToHtmlOfChar | src/utils.ts:22-26 | on one character the chain gives `&amp;`, `&lt;`, `&gt;`, `<br>` or the character itself |
| Utils.TextToHtmlIsCharMap | src/utils.ts:21-27 | textToHtml equals the per-character map over `& < >` and newline, with `"` left alone |
| Utils.TextToHtmlIsHtmlText | src/utils.ts:21-27 | the output is in the textToHtml output language |
| Utils.HtmlTextIsSafe | src/utils.ts:21-27 | that language holds no newline, and every `<` in it begins `<br>` |
| Utils.TextToHtmlCounts | src/utils.ts:23-26 | the output has one `<` per input newline (each `<br>` comes from a newline) and as many `"` as the input |
| Utils.TextToHtmlRoundTrip | src/utils.ts:21-27 | the inverse recovers the input of textToHtml |
| UtilsExamples.EscapeHtmlEscapesEntities | src/utils.ts:11 | an entity `&w;` of a plain word w is escaped again to `&amp;w;` (so `&amp;` becomes `&amp;amp;`), since `&` goes first |
| UtilsExamples.TextToHtmlNewline | src/utils.ts:26 | for plain words a and b, `a\nb` becomes `a<br>b` |
| UtilsExamples.TextToHtmlScript | src/utils.ts:24-25 | for a plain word w, `<w>` becomes `&lt;w&gt;` (so `<script>` becomes `&lt;script&gt;`) |
| Uri.Utf8 | src/link.ts:13 | a code point is written in 1 to 4 UTF-8 octets, the count fixed by its range; the leading octet carries the length pattern (0xxxxxxx, 110xxxxx, 1110xxxx, 11110xxx) and every further octet is a continuation 10xxxxxx |
| Uri.EncodeChar | src/link.ts:13 | a character of the unescaped set is kept; any other becomes three characters per UTF-8 octet, starting with `%`, in the percent-encoded language |
| Uri.EncodeURIComponent | src/link.ts:13 | the encoding holds only unescaped characters and `%` followed by two upper-case hex digits, and is never shorter than the input |
| Uri.PercentBytesEncoded | src/link.ts:13 | a run of octets is written as three characters each, all well-formed `%XY` triples |
| Uri.EncodeConcat | src/link.ts:13 | encoding distributes over concatenation |
| Uri.EncodeSpace | src/link.ts:13 | a space is written `%20` |
| Uri.EncodeTwoOctetChar | src/link.ts:13 | `é` is written as its two UTF-8 octets `%C3%A9` |
| Uri.EncodeURIComponentIsSafe | src/link.ts:13 | an encoded segment holds no `/`, `"`, `<`, `>`, space or `&` |
| Uri.EncodeIdentityIffUnreserved | src/link.ts:13 | encoding leaves a string unchanged if and only if it consists of `A-Z a-z 0-9 - _ . ! ~ * ' ( )` |
| Uri.DecodeEscapeOfEncodeChar | src/link.ts:13 | decoding the `%XY` run written for one character gives that character back and consumes exactly that run (1 to 4 octets) |
| Uri.DecodeEncodeRoundTrip | src/link.ts:13 | decodeURIComponent recovers every string from its encoding |
| Link.Href | src/link.ts:13 | the href begins with `{baseUrl}/users/`; a `"` or an `&` appears in it only if the base URL holds one |
| Link.CreateActivityLink | src/link.ts:11-15 | an `&` appears in the element only if the base URL holds one, so without one no character reference can alter the attribute; when the base URL holds no `"`, a reader of the element finds the href intact, and `Link.RouteParams`, reading the href text without URL resolution, recovers the exact handle and id |
| Link.LinkHrefOfTag | src/link.ts:14 | the element template yields its href back to a reader whenever the href holds no `"` |
| Link.RouteParamsOfHref | src/link.ts:13 | splitting the href after `{baseUrl}/users/` at slashes and decoding gives the handle and the id |
| Link.HrefOfUnreservedSegments | src/link.ts:13 | a handle and an id made only of unescaped characters appear verbatim after the base URL |
| Link.HrefOfHandleWithSpace | src/link.ts:13 | a space inside an otherwise plain handle is written `%20`, nothing else changes |
| Link.CreateActivityLinkExample | src/link.ts:13 | `{https://ex.com, alice bob, 42}` gives href `https://ex.com/users/alice%20bob/statuses/42` |
| Link.CreateActivityLinkTemplate | src/link.ts:14 | the element is `<link href="`, the href, then `" rel="alternate" type="application/activity+json"/>` |
| Decimal.NatToString | src/status.ts:71 | the decimal text of a number is non-empty, all digits, and has no leading zero (only 0 starts with `0`) |
| Decimal.IntToString | src/status.ts:83 | `${x}` is digits with a leading `-` exactly when x is negative; it starts with `0` only as `0` itself, and a `-` is never followed by `0` |
| Decimal.IntRoundTrip | src/status.ts:83 | the decimal text of an integer reads back as that integer |
| Decimal.NatToStringInjective | src/status.ts:71 | distinct indices have distinct decimal text |
| Status.OrString | src/status.ts:27 | JavaScript's or-default on a string field: an absent field or `""` gives d, any other value is kept; a non-empty default never yields `""` |
| Status.OrNull | src/status.ts:23 | JavaScript's or-null on a string field: a non-empty value is kept, otherwise null; never a present `""` |
| Status.OrNumber | src/status.ts:58-60 | JavaScript's or-default on a number field: an absent field or 0 gives d, any other value is kept |
| Status.OrBool | src/status.ts:49 | JavaScript's or-default on a boolean field: true exactly when the field is `true` or d is |
| Status.SynthesizedId | src/status.ts:71 | the id `{type}_{i}` splits at its first `_` into the type name and decimal digits that read back as i |
| Status.AttachmentTypeOf | src/status.ts:72 | `gif` gives `gifv`, `video` gives `video`, `image` gives `image` (each an if-and-only-if); never `audio` |
| Status.BuildMediaAttachment | src/status.ts:70-87 | the type is `AttachmentTypeOf` the media type (gif to gifv, video to video, image to image, never audio); id is the given id, or `{type}_{i}` when absent or empty; url kept; preview is a non-empty thumbnail, else the url for images, else null; description is a non-empty alt text or null; width and height default to 0; size is `{width}x{height}` of the defaulted numbers; aspect is the quotient only when both dimensions are given and non-zero, else 1 |
| Status.BuildMediaAttachments | src/status.ts:69-70 | as many attachments as media items, attachment i built from item i and index i |
| Status.AttachmentDependsOnItemOnly | src/status.ts:70 | media lists that agree at position i give the same attachment at i |
| Status.MediaAttachmentsOfAppend | src/status.ts:70 | appending media leaves the earlier attachments unchanged (order preserved) |
| Status.SynthesizedIdsDistinct | src/status.ts:71 | two items without id never receive the same synthesized id, whatever their types |
| Status.GifAttachmentExample | src/status.ts:71-84 | a gif without id or dimensions at index 0 gets id `gif_0`, type `gifv`, no preview, size `0x0`, aspect 1 |
| Status.SizeRoundTrip | src/status.ts:81-83 | `size` splits at its `x` into exactly the reported width and height |
| Status.BuildAccount | src/status.ts:40-67 | id, display name and username copied; `acct == username`; `uri == url`, defaulting to `""`; created-at is `joinedAt` or the clock; locked only when `protected` is true; avatar and header with equal static copies, defaulting to `""`; the three counts default to 0; the constant flags; empty lists |
| Status.CreateStatus | src/status.ts:15-38 | id and content copied; `uri == url`; created-at is `createdAt` or the clock; reply id kept only when non-empty; language `en`, spoiler `""`, visibility `public` and application `Web` by default; attachments are those of the media, none when absent; the account is built from the author; empty mentions, tags and emojis |
| Status.FalsyFieldsActAsAbsent | src/status.ts:20-58 | turning every `""`, `0` or `false` optional field, in the options, the author and each media item, into an absent one leaves the status unchanged |
| Status.MinimalStatusExample | src/status.ts:20-58 | with only the required fields given, every default appears |

## Left out

- The wall clock: `new Date().toISOString()` is read twice, in `createStatus` and in `buildAccount`. The two reads may give different values, so they are the two parameters `statusNow` and `accountNow`. The model states only where each one is used.
- The aspect ratio `width / height` is a floating-point division. It is kept as the pair of operands (`Aspect.Quotient`). The constant branch `1` is modelled exactly.
- JavaScript numbers are modelled as integers. NaN, fractions, negative zero, magnitudes above 2^53 (`Number.MAX_SAFE_INTEGER`), and the exponent notation `${n}` uses from 1e21 upwards are not part of this model. Above 2^53 a double cannot hold every integer, and `${2**60}` is `1152921504606847000` where `Decimal.IntToString` gives `1152921504606846976`. The attachment index `i` is an array index below 2^32 and is not affected.
- The regular-expression engine is not modelled. Each regex in `src/utils.ts` is specified directly: a case-insensitive substring test, and global single-character replacements.
- `encodeURIComponent` throws URIError on a lone UTF-16 surrogate. That cannot be expressed, because a Dafny `char` is a Unicode scalar value. For the same reason, string lengths count code points, not UTF-16 code units.
- Link.CreateActivityLink: the round-trip ensures is conditional on the base URL holding no `"`. The source inserts the base URL verbatim, and a quote in it ends the attribute early. `Link.LinkHref` takes the attribute text as written and does not decode HTML character references. An `&` in the base URL reaches the element unescaped, so an HTML parser may read a different href (`?a&amp;b` is read as `?a&b`). The contract proves only that every `&` in the element comes from the base URL. `Link.RouteParams` reads the href text as written, with no URL resolution, so the round trip says nothing about what a real router does with: a handle or id of `.` or `..` (removed as dot segments, section 5.2.4 of RFC 3986); a base URL holding `?` or `#` (the path ends there); an empty handle (`/users//statuses/…`, which `Link.RouteParams` accepts with an empty handle).
- `decodeURIComponent` is not called by the library. It is modelled only as the partner that proves the encoding loses nothing. Its error conditions (malformed escapes, overlong forms, surrogates, code points above U+10FFFF) are written out, but nothing beyond the round trip is proved about them.
- Types: the type checker is trusted. A caller who passes a value outside the declared types (for example `""` as a visibility) is not modelled. An empty media list is truthy in JavaScript and is kept as given.
- JSON serialisation of the records, and the HTTP serving and routing the host does, are outside the library. The route is modelled only as a reader of the href (`Link.RouteParams`).
- `src/index.ts` only re-exports the other modules. `src/types.ts` has no behaviour and appears as the datatypes of `types.dfy`.
