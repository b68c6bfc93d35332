# URL-parameter decoder, modelled in Dafny

This project models `utils/url-params.ts` of a conversational web app. That
file is the helper that fills prompt variables from the page's query string.
A query value that looks like base64 is taken to be `base64(gzip(utf-8 text))`
and decoded. Any other value, and any value that fails to decode, is used as
it stands. `parseUrlParams` keeps only the parameters whose keys belong to the
configured prompt variables. `getUrlParam` reads a single parameter.

Layout:

- `wrappers.dfy`: module `Wrappers`, the `Option` type. `None` stands for a
  thrown error or for `undefined`.
- `url_params.dfy`: module `UrlParams`, the whole model.

The browser is replaced by explicit inputs:

- `Host` carries `atob`, gzip inflation (`DecompressionStream('gzip')` read
  through `Response.arrayBuffer`) and `TextDecoder('utf-8').decode`. Each is an
  arbitrary total function that returns `Option`, so any of them may fail.
- `window` is an `Option<Query>`. `None` means no `window` (server rendering).
  `Some(q)` is `window.location.search` after `URLSearchParams` has split and
  unescaped it, as an ordered list of key/value pairs.
- `promptVariables` is a list of `PromptVariable` values. Only their `key` is
  read.

The pattern `/^[A-Za-z0-9+/]*={0,2}$/` is modelled by `MatchesShape`, a greedy
whole-string matcher. It is proved equal to the reading of the pattern as
concatenation, `Base64Shaped`: a run of alphabet characters followed by a
padding tail of zero, one or two `=`.

The result of `parseUrlParams` is a plain object literal. Writing the key
`__proto__` to it runs the setter inherited from `Object.prototype`. That setter
ignores a string value, so a prompt variable named `__proto__` never reaches the
result, even when it occurs in the query. A description of the decoder as
"every permitted key present in the query is in the result" therefore does not
hold for this one key. The model follows the code: `StoreProperty` performs the
write as the object does, and `ParseUrlParams` states the exception.

## Model

| member | source | states |
|---|---|---|
| `UrlParams.MatchesShapeIsPattern` | utils/url-params.ts:40 | The greedy matcher accepts a string exactly when it is a run of `A-Z a-z 0-9 + /` followed by zero, one or two `=` (both directions). |
| `UrlParams.IsValidBase64Exactly` | utils/url-params.ts:38-42 | `isValidBase64(s)` holds exactly when `s` is such a run plus padding and its length is a multiple of 4. The empty string is accepted. |
| `UrlParams.ForeignCharRejected` | utils/url-params.ts:40-41 | A string holding any character outside the alphabet and `=` is rejected. |
| `UrlParams.DataAfterPadRejected` | utils/url-params.ts:40-41 | A `=` followed by a character other than `=` makes the string rejected. |
| `UrlParams.ThreePadsRejected` | utils/url-params.ts:40-41 | Three `=` in a row make the string rejected. |
| `UrlParams.AlphabetOnlyAccepted` | utils/url-params.ts:38-42 | Every string of alphabet characters whose length is a multiple of 4 is accepted. So a plain value can pass the pre-check by chance. |
| `UrlParams.CopyCharCodes` | utils/url-params.ts:12-15 | The `Uint8Array` is freshly allocated and has the length of the binary string. Byte `i` is char code `i` modulo 256, and it equals char code `i` when every code is below 256, as in `atob` output. |
| `UrlParams.BinaryStringBytes` | utils/url-params.ts:11-15 | Copying the char codes of the binary string of a byte sequence gives back exactly that byte sequence. |
| `UrlParams.DecodeBase64AndDecompress` | utils/url-params.ts:8-31 | The method returns what the pipeline base64 decode, then byte copy, then gzip inflate, then UTF-8 decode returns. It returns `None`, the thrown error, when any stage fails. |
| `UrlParams.PipelineFailsIffAStageFails` | utils/url-params.ts:9-30 | The pipeline fails exactly when `atob`, the inflate step or the text decode fails. |
| `UrlParams.PipelineRoundTrip` | utils/url-params.ts:11-26 | If `atob` yields the binary string of a gzip stream, the stream inflates to some bytes, and those bytes decode to `text`, then the pipeline returns `text`. |
| `UrlParams.TryDecodeParamValue` | utils/url-params.ts:49-62 | It never fails. The result is the raw value or the pipeline's output. It is the raw value when the value is not base64-shaped or when the pipeline fails. |
| `UrlParams.PlainValueNeverDecoded` | utils/url-params.ts:51-53 | For a value that is not base64-shaped, the result is the value itself for every host, so the pipeline is never consulted. |
| `UrlParams.DecodedWhenPipelineSucceeds` | utils/url-params.ts:56-57 | For a base64-shaped value whose pipeline succeeds, the result is the decoded text. |
| `UrlParams.TryDecodeRoundTrip` | utils/url-params.ts:49-62 | A base64-shaped encoding of gzip-compressed UTF-8 text resolves to the text. |
| `UrlParams.FirstValue` | utils/url-params.ts:74-75 | `URLSearchParams.get` returns `None` exactly when the name does not occur. Otherwise it returns the value of an occurrence with no earlier occurrence of that name. |
| `UrlParams.LastValue` | utils/url-params.ts:97-111 | The value left after later writes overwrite earlier ones. It is `None` exactly when the key does not occur, and otherwise the value of an occurrence with no later occurrence of that key. |
| `UrlParams.FirstOccurrenceWins` | utils/url-params.ts:74-75 | Pairs with the same name that come after its first occurrence do not change what `get` returns. |
| `UrlParams.LastOccurrenceWins` | utils/url-params.ts:97-111 | Pairs with the same key that come before its last occurrence do not change the stored value. |
| `UrlParams.GetUrlParam` | utils/url-params.ts:69-76 | The result is `undefined` with no window, with an absent name, or with an empty first value. Otherwise it is the first value of the name. |
| `UrlParams.StoreProperty` | utils/url-params.ts:86-106 | Assigning a string to a key of the plain `{}` result creates or overwrites that key and changes no other. For `__proto__` the inherited setter ignores the string, so no key is created and nothing changes. |
| `UrlParams.ParseUrlParams` | utils/url-params.ts:83-118 | With no window the result is empty. Otherwise its keys are exactly the prompt-variable keys that occur in the query, minus `__proto__`. No foreign key appears, and no other permitted key is dropped. Each key holds `TryDecodeParamValue` of its last occurrence's value. |

## Left out

- Gzip inflation, UTF-8 decoding and `atob` are host functions with no
  interpretation. Their own standards (RFC 1952, the WHATWG forgiving-base64
  decode, the Encoding standard) are not modelled. In particular, the default
  `TextDecoder` replaces malformed input instead of throwing; a host whose
  `utf8Decode` never returns `None` models that.
- `window.location.search` parsing by `URLSearchParams`
  (application/x-www-form-urlencoded) is not modelled. The model takes the
  decoded pairs as input.
- `@/types/app` is not part of this model. `PromptVariable` keeps only `key`.
- `async`/`await` is not modelled. Each `await` is a plain sequential call in
  the model.
- `console.error` and `console.warn` diagnostics are not modelled.
- The error message text of the rethrown `Error` (utils/url-params.ts:29) is
  not modelled. A failure is just `None`.
- The inner `catch` of `parseUrlParams` (utils/url-params.ts:107-111) is not
  modelled as a separate branch. It is unreachable, because
  `TryDecodeParamValue` never fails. It would store the raw value, which
  `TryDecodeParamValue`'s own fallback already covers.
- The outer `catch` of `parseUrlParams` (utils/url-params.ts:113-115) is not
  modelled. Its `try` (utils/url-params.ts:92-112) encloses the construction of
  `URLSearchParams`, the key set and the whole loop. The loop cannot throw,
  because the inner `try` at utils/url-params.ts:103-111 catches every `await`.
  The `catch` is reachable only when `promptVariables.map(v => v.key)` throws,
  which at run time means a non-array or a null element. In that case the
  source returns `{}` although a window exists. The model's typed
  `seq<PromptVariable>` input excludes that case.
- `ParseUrlParams` returns a `map<string, string>`. The source's
  `Record<string, any>` holds only strings, and never an own `__proto__` key
  (see `StoreProperty`). Other keys inherited from `Object.prototype`, such as
  `constructor`, are plain data properties, so writing them creates an own key
  as usual.
- Char codes in the model are Dafny `char` values (Unicode scalar values)
  rather than UTF-16 code units. Only codes below 256 matter, because `atob`
  yields nothing else.
- The i18n setup, the markdown wrapper component and the layout shell of the
  repository have no decoding logic and are not modelled.
