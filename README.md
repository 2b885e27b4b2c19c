# BeaconRepeater, modelled in Dafny

BeaconRepeater is a Boomerang plugin. It subscribes once to the host's
`"beacon"` event. For every beacon it copies the payload fields named in a
fixed allow-list (`beaconParamToCopy`) into a query string and sends that
string as an image request to a second endpoint (`BEACON_URL`).

This project models that plugin, `beaconrepeater.js`:

- `getUriEncodedVar`, which turns one name and value into a percent-encoded
  `name=value` pair. `BeaconRepeater.GetUriEncodedVar` models it.
- The body of the `onBeacon` callback, which filters the payload, encodes
  the pairs, joins them with `&` and builds the URL.
  `BeaconRepeater.OnBeacon` models it as a method with a loop.
- `init` and its `initialized` flag (`BeaconRepeater.Plugin`, with the host's
  event bus as `BeaconRepeater.EventBus`), and `is_complete`.

Three helper modules model what the plugin calls in the host, together with
the inverses a collector uses to read the query string back:

- `Utf8` covers UTF-8 for one scalar value (RFC 3629, section 3).
- `UriComponent` covers `encodeURIComponent` and `decodeURIComponent`
  (ECMA-262, section 19.2.6).
- `Text` covers `Array.prototype.join` and `String.prototype.split` with a
  one-character separator.
- `Options` holds the `Option` type.

The payload is a sequence of its own `(name, value)` entries, in the order
the runtime enumerates them. A value is a string, a number already rendered
as text, a boolean, a host object, `null` or `undefined`. The host object
type is a type parameter, and the host's `serializeForUrl` is a function
parameter. `BeaconRepeater.ParseQuery` reads a query string back into pairs,
the way a collector would. It is the partner of the builder: the main
theorem says that parsing what the plugin builds returns exactly the
allow-listed entries, in payload order.

Two facts about the code:

- `init`'s callback always filters by the allow-list. There is no unfiltered mode.
- `encodeURIComponent` leaves letters, digits and `-_.!~*'()` unescaped.

## Model

| member | source | states |
|---|---|---|
| `BeaconRepeater.GetUriEncodedVar` | beaconrepeater.js:44-57 | The pair never contains `&`. A `null` or `undefined` value gives the encoded name followed by `=` with an empty value part. |
| `BeaconRepeater.PairHasOneEquals` | beaconrepeater.js:44-57 | Every encoded pair holds exactly one `=`, the one between name and value. |
| `BeaconRepeater.PairRoundTrip` | beaconrepeater.js:44-57 | Parsing a pair gives back the original name and the value's string form. `null` and `undefined` come back as `""` and objects as their serialization. |
| `BeaconRepeater.UnreservedPair` | beaconrepeater.js:49-54 | If the name and the value's string form contain only unreserved characters, the pair is written as `name=value` unchanged. |
| `BeaconRepeater.OnBeacon` | beaconrepeater.js:64-98 | If an image object can be created, the request is `BEACON_URL + "?" +` the query string of the filtered, encoded and joined payload. Otherwise nothing is sent. The loop invariant ties the pushed pairs to the filtered prefix of the payload. |
| `BeaconRepeater.EncodedPieceHasOneEquals` | beaconrepeater.js:69-76 | Every pair pushed for a payload holds exactly one `=`. |
| `BeaconRepeater.EncodePrefixStep` | beaconrepeater.js:69-76 | Visiting one more payload entry adds its encoded pair if and only if its name is on the allow-list. Otherwise the list is unchanged. |
| `BeaconRepeater.QueryRoundTrip` | beaconrepeater.js:69-78 | Parsing the query string gives exactly the allow-listed entries of the payload, in payload order, each paired with its value's string form. |
| `BeaconRepeater.SelectedNames` | beaconrepeater.js:69-76 | The names of the selected entries are the payload's names intersected with the allow-list. |
| `BeaconRepeater.ForwardedNames` | beaconrepeater.js:69-78 | The query string always parses. A name appears in it if and only if it is a payload name and is on the allow-list. |
| `BeaconRepeater.ForwardedInPayloadOrder` | beaconrepeater.js:69-78 | The j-th forwarded pair comes from the j-th copied payload entry. Copied entries are taken in increasing payload position. Every allow-listed entry is taken and no other. |
| `BeaconRepeater.OnePiecePerCopiedName` | beaconrepeater.js:69-78 | If payload names are distinct and the query string is not empty, splitting it on `&` gives one piece per copied name, one more than the number of `&` in it. Each piece holds exactly one `=`. |
| `BeaconRepeater.EmptyQueryIffNothingCopied` | beaconrepeater.js:78-94 | The query string is empty if and only if no payload name is on the allow-list. In that case the URL is exactly `BEACON_URL + "?"`. |
| `BeaconRepeater.EmptyPayload` | beaconrepeater.js:94 | An empty payload gives the empty query string and the URL `https://www.tiaa.org/public/text/pmt.gif?`. |
| `BeaconRepeater.ExampleSelected` | beaconrepeater.js:26 | Of the payload `rt.start`, `foo`, `t_done`, only `foo` is dropped, and the other two keep their order. |
| `BeaconRepeater.TwoUnreservedPairs` | beaconrepeater.js:69-78 | Two entries with unreserved names and values are joined as `name=value&name=value`. |
| `BeaconRepeater.ExampleQueryString` | beaconrepeater.js:69-78 | The payload `rt.start=100`, `foo=bar`, `t_done=250` gives the query string `rt.start=100&t_done=250`. |
| `BeaconRepeater.EventBus.Subscribe` | beaconrepeater.js:129 | Subscribing appends the event name to the bus's subscriptions. |
| `BeaconRepeater.Plugin.constructor` | beaconrepeater.js:32 | A new plugin starts uninitialized. |
| `BeaconRepeater.Plugin.Init` | beaconrepeater.js:127-135 | The first call subscribes to `"beacon"`, and later calls leave the bus unchanged. Afterwards `initialized` is true. Every call returns the plugin itself. |
| `BeaconRepeater.InitRepeatedly` | beaconrepeater.js:127-135 | Calling `init` one or more times on a new plugin adds exactly one `"beacon"` subscription. |
| `BeaconRepeater.Plugin.IsComplete` | beaconrepeater.js:143-145 | Always true. |
| `UriComponent.Encode` | beaconrepeater.js:53-54 | The encoding is at least as long as its input. It contains only unreserved characters and `%`, so none of `&`, `=`, `?`, `#` or space. |
| `UriComponent.DecodeEncode` | beaconrepeater.js:53-54 | `decodeURIComponent(encodeURIComponent(s)) == s` for every string of scalar values. |
| `UriComponent.EncodeIsIdentityIffUnreserved` | beaconrepeater.js:53-54 | Encoding leaves a string unchanged if and only if every character is a letter, a digit or one of `-_.!~*'()`. |
| `UriComponent.HexDigit` | beaconrepeater.js:53-54 | The escape digit written for a nibble is unreserved, is never a lower-case letter, and reads back as that nibble. |
| `Utf8.EncodeScalar` | beaconrepeater.js:53-54 | UTF-8 uses one to four bytes, one byte exactly for ASCII. The leading byte announces the length, trailing bytes are continuation bytes, and the form is never overlong. |
| `Utf8.DecodeScalar` | beaconrepeater.js:53-54 | The decoder accepts only what the encoder produces: a decoded character re-encodes to the same bytes. |
| `Utf8.DecodeEncodeScalar` | beaconrepeater.js:53-54 | Decoding the UTF-8 form of a character gives that character back. |
| `Text.Join` | beaconrepeater.js:78 | Joining no parts gives `""`. Otherwise the result starts with the first part. |
| `Text.Split` | beaconrepeater.js:78 | Splitting gives at least one piece, and no piece contains the separator. |
| `Text.SplitCount` | beaconrepeater.js:78 | Splitting gives one more piece than there are separators in the string. |
| `Text.SplitJoin` | beaconrepeater.js:78 | Splitting undoes joining when there is at least one part and no part contains the separator. |
| `Text.JoinSplit` | beaconrepeater.js:78 | Joining undoes splitting, for every string. |

## Left out

- The `setTimeout(..., 0)` deferral (lines 66, 98) is left out. It only schedules the callback, so the callback body is modelled as a plain method of the payload.
- `new Image()`, its `try`/`catch`, the `BOOMR.debug` message and the `img.src` assignment (lines 83-97) are browser I/O. They are reduced to an `imageAvailable` input and a returned request: `None`, or `Some(url)` with the URL the image would load.
- `sendXhrPostBeacon` (lines 106-112) is never called and is not modelled.
- The `window.BOOMR` global and the guard against loading twice (lines 18-23), and publishing the plugin (line 118), are host plumbing and are not modelled.
- `BOOMR.utils.serializeForUrl` (line 50) is code in the host. It is a function parameter and is never interpreted.
- Payload values that are functions or symbols are outside the model. The source encodes a function's source text, since its `typeof` is not `"object"` and `serializeForUrl` is skipped. A symbol on the allow-list makes `encodeURIComponent` (line 54) throw `TypeError` inside the deferred callback, and nothing is sent.
- Number-to-string conversion is floating point. Numbers arrive already rendered as text.
- `for...in` enumeration with `hasOwnProperty` (lines 69, 73) is not modelled as such. The payload is given as its sequence of own entries, so inherited properties cannot occur. The `TypeError` that `data.hasOwnProperty(name)` (line 73) throws when the payload has no prototype, or has an own `hasOwnProperty` key that is not a function, is outside the model. On such a payload the source throws inside the deferred callback and sends nothing.
- Payloads whose names or values hold a lone UTF-16 surrogate are outside the model. On them `encodeURIComponent` (lines 53-54) throws `URIError` inside the deferred callback, and no request is sent. A Dafny `char` is a Unicode scalar value, so the model's strings cannot hold such input.
- `BeaconRepeater.EventBus.Subscribe`: records only the event name. The handler, the state argument and the context object passed at line 129 are not modelled.
