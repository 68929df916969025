# PHPHttpRequest, modelled in Dafny

PHPHttpRequest is a small HTTP/1.1 client for PHP that follows the shape of
JavaScript's XMLHttpRequest. It has four classes, and each has a counterpart
here:

- **`PHPHttpRequest`** becomes `Requests.HttpRequest`. This request handle
  is filled by `open()`, `setRequestHeader()` and `setCookie()`. It writes a
  request head with `genHeader()`, encodes a string, a `File` or a
  `FormData` as the body in `send()`, and hands the bytes to the server in
  `sendRequest()`. It then wraps the reply in a response object and clears
  itself for the next request.
  `setRequestHeader()` refuses a header whose trimmed name is `cookie` in
  any case, so the table never holds that name. It does not look inside
  other names: a name such as `Cookie: a` is stored, and the head then
  carries a second `Cookie:` line beside the one built from the cookie
  table.
- **`PHPHttpResponse`** becomes `Responses.Response`. It splits a raw reply at
  the first blank line. It then reads each header line as one of three
  things:
  - a status line, matched by the `HTTP/… ddd …` pattern;
  - a `Set-Cookie` header, which is tokenised into a cookie record;
  - an ordinary `name: value` header.

  Lookups by name ignore case.
- **`File`** becomes `Files.File`. This is a handle on a file on disk: its
  path, MIME type, size and base name. It can read the file as a string
  (with an offset and a length limit) or as a base 64 `data:` URL.
- **`FormData`** becomes `Forms.FormData`. This is an ordered list of form
  fields (text or file). `shift()` and `pop()` take fields off it and
  `reset()` puts them all back.

Modules:

- **Text:** PHP's byte-string functions: `trim`, `strtolower`, `strtoupper`,
  `strpos`, `explode`, `implode`, and integer-to-string conversion.
- **Encoding:** `rawurlencode` (RFC 3986 unreserved characters kept) and
  `base64_encode` (RFC 4648). Each has a decoder, so that round trips can be
  stated.
- **Assoc:** a PHP string-keyed array. It keeps insertion order and
  overwrites in place.
- **Files, Forms, Responses, Bodies and Requests:** the four classes, plus the
  two body encodings that `send()` writes:
  - `application/x-www-form-urlencoded`;
  - `multipart/form-data`, which RFC 2046 describes.

Strings are byte strings: `Bytes` is a sequence of characters below 256.

Where a class updates its fields in place, the model is a Dafny class:
- `HttpRequest`, `Response` and `FormData` have methods with `modifies`
  frames.
- The loops of the source (`genHeader()`, the body loops of `send()`,
  `parseCookie()`, the constructor of the response, `getHeader()`,
  `getCookie()`) are `while` loops.
- Each loop is proved against a specification function over the inputs.
- The properties of those functions are proved as lemmas: round trips, the
  framing of the head and the body, and which token or line wins.

`File` objects are never changed after construction, so `File` is a
datatype.

## Model

| member | source | states |
|---|---|---|
| Text.Lower | PHPHttpResponse.class.php:76 | strtolower keeps the length and maps exactly the bytes A–Z to a–z, leaving every other byte alone |
| Text.Upper | PHPHttpRequest.class.php:161 | strtoupper keeps the length and maps exactly a–z to A–Z, leaving every other byte alone |
| Text.TrimCharacterised | PHPHttpRequest.class.php:128-129 | trim() returns a slice of its input with only trim characters (space, tab, LF, CR, NUL, VT) cut on each side, and the result neither starts nor ends with one |
| Text.TrimUnchanged | PHPHttpRequest.class.php:128-129 | trim() leaves alone a string that neither starts nor ends with a trim character |
| Text.Trim | PHPHttpRequest.class.php:128-129 | trim(): the function has no contract of its own; Text.TrimCharacterised and Text.TrimUnchanged state what it returns |
| Text.StrPos | PHPHttpResponse.class.php:67 | strpos finds the first occurrence of the pattern, and reports none exactly when the pattern occurs nowhere |
| Text.Explode | PHPHttpResponse.class.php:70 | explode() without a limit always returns at least one piece; Text.ExplodeJoin and Text.ExplodePiecesFree pin the pieces down |
| Text.Join | PHPHttpRequest.class.php:216-220 | implode(): the function has no contract of its own; Text.JoinExplode, Text.ExplodeJoin and Text.ConcatTerminatedIsJoin state how it relates to explode() and to the loops that write it |
| Text.ExplodeJoin | PHPHttpResponse.class.php:70 | implode() with the same separator undoes explode() on every string |
| Text.ExplodePiecesFree | PHPHttpResponse.class.php:70 | no piece that explode() returns contains the separator |
| Text.JoinExplode | PHPHttpResponse.class.php:35 | explode() on a one-byte separator recovers any list of pieces that are free of it from their implode() |
| Text.ConcatTerminatedIsJoin | PHPHttpRequest.class.php:49-54 | writing `item . sep` for every item and cutting the last separator (substr(…, 0, -n)) gives implode(sep, items) |
| Text.Decimal | PHPHttpRequest.class.php:228 | an integer's decimal text is non-empty, all digits, and has no leading zero unless the integer is 0 |
| Text.DecimalRoundTrip | PHPHttpRequest.class.php:228 | reading the decimal text of a length back gives that length |
| Encoding.EncodeByte | PHPHttpRequest.class.php:218 | rawurlencode keeps an unreserved byte and writes any other byte as '%' and two upper-case hex digits that denote it |
| Encoding.RawUrlEncode | PHPHttpRequest.class.php:218 | rawurlencode output is at least as long as its input and holds only unreserved bytes and '%'; Encoding.RawUrlRoundTrip and Encoding.RawUrlEncodeInjective state that it can be undone |
| Encoding.RawUrlRoundTrip | PHPHttpRequest.class.php:218 | percent-decoding undoes rawurlencode on every byte string |
| Encoding.RawUrlEncodeInjective | PHPHttpRequest.class.php:218 | two different strings never encode to the same text |
| Encoding.Base64RoundTrip | File.class.php:119 | base64 decoding undoes base64_encode on every byte string, padding included |
| Encoding.Base64 | File.class.php:119 | base64_encode output has 4 characters for every started group of 3 bytes; Encoding.Base64RoundTrip, Encoding.Base64Canonical and Encoding.Base64Alphabet pin the text down |
| Encoding.QuadCanonical | File.class.php:119 | a four-character group that the decoder accepts is the group base64_encode writes for the one, two or three bytes it decodes to |
| Encoding.Base64Canonical | File.class.php:119 | the decoder accepts only base64_encode's own text: any text that decodes to some bytes is their encoding |
| Encoding.Base64Alphabet | File.class.php:119 | base64_encode writes only alphabet characters and '=' |
| Assoc.Get | PHPHttpRequest.class.php:141 | a lookup finds nothing exactly when the key is absent, and otherwise returns a value stored under the key |
| Assoc.Put | PHPHttpRequest.class.php:141 | assigning an existing key keeps the key order; a new key goes at the end |
| Assoc.PutThenGet | PHPHttpRequest.class.php:141 | after `$a[$k] = $v`, `$a[$k]` is `$v` and every other key reads as before |
| Assoc.PutKeepsKeysUnique | PHPHttpRequest.class.php:129 | assignment keeps each key in the array once |
| Files.Basename | File.class.php:68 | basename() is the last '/'-free segment of the path after the trailing slashes are dropped |
| Files.BasenameOfChild | File.class.php:68 | the base name of `dir/name` is `name` |
| Files.NewFile | File.class.php:63-72 | a File is filled in exactly when the path is not PHP-empty and names a regular file; it then holds the path, the MIME type, the size and the base name, and otherwise every field is unset |
| Files.Get | File.class.php:82-89 | the property name is compared in lower case; the four field names give their field (null when unset), filesize gives exactly the stored size, and any other name gives false |
| Files.NormalizeOffset | File.class.php:101-103 | an offset that is not an integer, or is below -1, becomes -1; any other offset is kept |
| Files.ReadLimit | File.class.php:104-108 | a length limit applies exactly when maxlen is a positive integer |
| Files.ReadAsString | File.class.php:100-109 | the read fails exactly when the path is unset or names nothing any more; a path that has become a directory reads as ""; on a regular file it returns a slice of the content, within the limit, from the offset (the whole file for offset -1 and no limit, nothing past the end) |
| Files.ReadAsStringExact | File.class.php:100-109 | the bytes read are exactly the content from the start position (0 for offset -1, the end for an offset past it): up to the end of the file with no limit, else min(limit, bytes left) of them |
| Files.DataUri | File.class.php:118-120 | the data URL is `data:`, the MIME type and `;base64,`, followed by a text whose base64 decoding is the whole file |
| Files.DataUriCanonical | File.class.php:119 | the text after `;base64,` is the only text that decodes to the whole file, so the data URL is fixed by the MIME type and the content |
| Forms.FormData.constructor | FormData.class.php:19-24 | a new form has no fields in any list, and hasFile and multipart are false |
| Forms.FormData.Append | FormData.class.php:36-52 | a PHP-empty name is refused and nothing changes; otherwise the field goes to the end of the pending list, and a filename override is kept only for a file and only when it is not empty; a file sets hasFile, and no field is lost |
| Forms.FormData.Property | FormData.class.php:62-68 | only hasFile and multipart can be read; any other name gives false |
| Forms.FormData.SetProperty | FormData.class.php:78-82 | only multipart can be written |
| Forms.FormData.Shift | FormData.class.php:91-97 | the first pending field moves to the end of the shifted list and is returned; an empty list gives false, and the appended fields stay the same |
| Forms.FormData.Pop | FormData.class.php:106-112 | the last pending field moves to the front of the popped list and is returned; an empty list gives false, and the appended fields stay the same |
| Forms.FormData.Reset | FormData.class.php:120-123 | every field is pending again, in the order array_merge gives: the shifted ones, then the pending ones, then the popped ones; the two lists of taken fields are empty |
| Forms.TakeThenReset | FormData.class.php:115-123 | any run of shift() and pop() followed by reset() leaves pending exactly what reset() would have put back before the run: taking fields never changes the order reset() restores |
| Forms.PopThenAppendReorders | FormData.class.php:106-123 | reset() does not restore append order in general: append(a), pop(), append(b), reset() leaves b before a |
| Responses.HeaderBlock | PHPHttpResponse.class.php:67-68 | the header block is the prefix of the reply up to its first blank line (CRLF CRLF): it holds none, a blank line follows it, and it is empty when the reply has none |
| Responses.Body | PHPHttpResponse.class.php:84 | the reply is the header block, the blank line and the body; with no blank line the body is the reply from byte 4 on |
| Responses.SplitRoundTrip | PHPHttpResponse.class.php:67-84 | a head with no blank line, which does not end in CR or LF, followed by a blank line and a body, splits back into that head and that body |
| Responses.StatusCode | PHPHttpResponse.class.php:72-73 | a line is a status line exactly when the pattern matches it; the code is the three digits of the last match |
| Responses.StatusNeedsReason | PHPHttpResponse.class.php:72 | "HTTP/1.1 200 OK" gives code 200, while "HTTP/1.1 200" without a reason phrase is not a status line |
| Responses.AttributeStopsAtSecondEquals | PHPHttpResponse.class.php:44 | list($on, $ov) = explode('=', …) takes the value up to the second '=' ("id=YQ==" gives "YQ") |
| Responses.AttributeOf | PHPHttpResponse.class.php:44 | list($on, $ov) = explode('=', …) gives a name and a value that hold no '='; Responses.AttributeStopsAtSecondEquals says which ones |
| Responses.ClassifyToken | PHPHttpResponse.class.php:37-53 | a token that trims to "" is skipped, "secure" and "httponly" (in any case) are the two flags, and any other token is split at '=' into an expires, path or domain attribute (name in any case) carrying the trimmed value, or else a trimmed name and value |
| Responses.AttributeTokenRead | PHPHttpResponse.class.php:44-53 | a token `name=value` with no other '=' and no outer trim characters reads as the attribute its name selects, or as that name and value |
| Responses.LastNameTokenWins | PHPHttpResponse.class.php:50-53 | the cookie's name and value come from its last name=value token, and stay unset when there is none |
| Responses.LastPathWins | PHPHttpResponse.class.php:48-49 | the path comes from the last path token, and stays unset when there is none |
| Responses.LastDomainWins | PHPHttpResponse.class.php:48-49 | the domain comes from the last domain token, and stays unset when there is none |
| Responses.LastExpiresWins | PHPHttpResponse.class.php:45-47 | the expiry comes from the last expires token, and stays unset when there is none |
| Responses.Flags | PHPHttpResponse.class.php:39-42 | secure and httponly are set exactly when some token is that flag |
| Responses.ReadTokens | PHPHttpResponse.class.php:36-55 | the token loop builds the record that applying every token in order gives |
| Responses.CookieOf | PHPHttpResponse.class.php:33-57 | the record parseCookie() builds: the function has no contract of its own; Responses.Flags and the Last…Wins lemmas state each of its fields, and Responses.Response.ParseCookie appends it |
| Responses.HeaderParts | PHPHttpResponse.class.php:75 | a header line splits at its first ':' into a colon-free name and the rest, and a line with no ':' is all name |
| Responses.HeaderPartsRoundTrip | PHPHttpResponse.class.php:75 | a name without ':' and any value, joined by ':', split back into that name and value |
| Responses.ClassifyLine | PHPHttpResponse.class.php:72-81 | a line counts as a status line exactly when the status pattern matches it, and then carries that code; otherwise it is split at its first ':' and is a Set-Cookie line carrying the cookie of the value when the trimmed name is set-cookie in any case, else a header with the trimmed name and value |
| Responses.HeaderLineRead | PHPHttpResponse.class.php:75-79 | `name:value`, with a colon-free name not starting with `HTTP/`, reads as a cookie when the name is set-cookie and as the header (trimmed name, trimmed value) otherwise |
| Responses.ClassifyLines | PHPHttpResponse.class.php:71 | each header line is read on its own, in order |
| Responses.EveryLineOnce | PHPHttpResponse.class.php:71-82 | each header line lands in exactly one place: the headers are the ordinary lines in order, the cookies one record per Set-Cookie line in order, and status lines only set the status |
| Responses.LastStatusLineWins | PHPHttpResponse.class.php:72-73 | the status is the code of the last status line, and stays unset when there is none |
| Responses.ParseResponse | PHPHttpResponse.class.php:66-85 | what the constructor makes of a reply: the function has no contract of its own; Responses.EveryLineOnce and Responses.LastStatusLineWins state its fields, and Responses.Response.constructor is proved equal to it |
| Responses.Select | PHPHttpResponse.class.php:99-104 | the selection keeps, in their order, exactly the entries whose name equals the asked name case-insensitively, each as often as it occurs |
| Responses.SelectEmpty | PHPHttpResponse.class.php:105-106 | the selection is empty exactly when no entry has the name |
| Responses.Response.constructor | PHPHttpResponse.class.php:66-85 | the status, headers and cookies are the parse of the header lines, and the data is the body after the first blank line |
| Responses.Response.ReadLines | PHPHttpResponse.class.php:70-82 | the loop over the header lines gives the fold of the per-line parse over them |
| Responses.Response.ReadLine | PHPHttpResponse.class.php:72-81 | one header line sets the status, adds one cookie record or adds one header, as its classification says |
| Responses.Response.ParseCookie | PHPHttpResponse.class.php:33-57 | one Set-Cookie value adds exactly one record, the one its tokens give, at the end of the cookie list |
| Responses.Response.GetHeader | PHPHttpResponse.class.php:95-110 | an empty name gives all headers; otherwise false exactly when no header has the name (case-insensitively), else those headers in order |
| Responses.Response.GetCookie | PHPHttpResponse.class.php:120-135 | an empty name gives all cookies; otherwise false exactly when no cookie has the name (case-insensitively), else those cookies in order |
| Responses.Response.Property | PHPHttpResponse.class.php:145-150 | only status and data can be read; any other name gives null |
| Bodies.UrlEncodedBody | PHPHttpRequest.class.php:217-220 | the urlencoded body is the `name=value` pairs joined by '&', and is empty for a form with no pending fields |
| Bodies.PairsWrittenTerminated | PHPHttpRequest.class.php:217-220 | the loop's text, before the last '&' is cut, is every pair followed by '&' |
| Bodies.PairsRoundTrip | PHPHttpRequest.class.php:218 | decoding the encoded pairs gives back every field's name and text, in order |
| Bodies.UrlEncodedRoundTrip | PHPHttpRequest.class.php:216-220 | a receiver decoding the urlencoded body recovers exactly the fields, in order |
| Bodies.PartsStep | PHPHttpRequest.class.php:198-213 | each turn of the multipart loop appends CRLF, the field's body part, CRLF and the delimiter |
| Bodies.MultipartClose | PHPHttpRequest.class.php:214 | the loop's text followed by `--` and CRLF is the whole multipart body |
| Bodies.MultipartFraming | PHPHttpRequest.class.php:197-214 | a multipart body is the delimiter, the body parts separated by CRLF, delimiter and CRLF, and then the close delimiter (RFC 2046, section 5.1.1) |
| Bodies.MultipartEmpty | PHPHttpRequest.class.php:197-214 | a form with no pending fields gives just the opening and the closing delimiter |
| Bodies.MultipartBody | PHPHttpRequest.class.php:193-214 | the multipart body: the function has no contract of its own; Bodies.MultipartFraming, Bodies.MultipartEmpty and Bodies.MultipartClose state its shape |
| Requests.DefaultHeadersValid | PHPHttpRequest.class.php:75-80 | the default headers hold each name once and no Cookie header |
| Requests.HeaderPutKeepsTable | PHPHttpRequest.class.php:127-130 | setRequestHeader ignores a name that trims to "cookie" in any case; otherwise the trimmed name reads as the trimmed value, every other name is unchanged, and the table keeps unique names and no Cookie header |
| Requests.HeaderPut | PHPHttpRequest.class.php:127-130 | setRequestHeader() on the table: the function has no contract of its own; Requests.HeaderPutKeepsTable states its effect |
| Requests.CookieThroughHeaderName | PHPHttpRequest.class.php:127-130 | the cookie filter looks at the whole trimmed name only: setRequestHeader("Cookie: a", "b") is stored and writes the head line `Cookie: a: b` next to the line built from the cookie table |
| Requests.HeadStart | PHPHttpRequest.class.php:44-45 | the head starts with the request line (method, path, '?' and the query when set, HTTP/1.1) and the Host line, each ended by CRLF |
| Requests.RequestHead | PHPHttpRequest.class.php:43-58 | the head genHeader() writes: the function has no contract of its own; Requests.HeadStart and Requests.RequestReadBack state its lines, and Requests.HttpRequest.GenHeader is proved equal to it |
| Requests.CookieFinish | PHPHttpRequest.class.php:49-55 | cutting the last "; " and adding CRLF turns the written cookie pairs into one `Cookie:` line that joins them with "; " |
| Requests.FramedReadBack | PHPHttpRequest.class.php:54-56 | CRLF-terminated lines without CR or LF, then a blank line and a body, split back into those lines and that body |
| Requests.RequestReadBack | PHPHttpRequest.class.php:43-58 | when no head line holds CR or LF, the head the request writes, followed by any body, splits back into exactly those lines and that body |
| Requests.BodyHeadersAreSet | PHPHttpRequest.class.php:223-228 | the header table after send() is what the Content-Type and Content-Length setRequestHeader calls make of it |
| Requests.ContentLengthIsBodyLength | PHPHttpRequest.class.php:228 | Content-Length reads as the decimal length of the body that goes out, and the table keeps unique names and no Cookie header |
| Requests.ContentTypeIsKept | PHPHttpRequest.class.php:223 | a Content-Type that trim() leaves alone is stored as given |
| Requests.MultipartNamesItsBoundary | PHPHttpRequest.class.php:195-197 | a multipart body opens with `--` and the boundary that the Content-Type header names |
| Requests.MultipartOpensWithDelimiter | PHPHttpRequest.class.php:197 | every multipart body starts with the delimiter |
| Requests.ShiftNext | PHPHttpRequest.class.php:198 | shift() in the send loop yields the next field, or false once all are taken, and moves it to the shifted list |
| Requests.WriteMultipart | PHPHttpRequest.class.php:193-214 | the multipart loop writes the multipart body of the pending fields and leaves them all shifted |
| Requests.WriteUrlEncoded | PHPHttpRequest.class.php:216-220 | the urlencoded loop writes the urlencoded body of the pending fields and leaves them all shifted |
| Requests.HttpRequest.constructor | PHPHttpRequest.class.php:115-117 | a new handle is cleared: nothing set, the default headers, no cookies and no response |
| Requests.HttpRequest.Reset | PHPHttpRequest.class.php:66-82 | every URL part and the method are unset, the header table is the default one, the cookie table is empty, and the response is kept |
| Requests.HttpRequest.SetRequestHeader | PHPHttpRequest.class.php:127-130 | the table becomes the trimmed assignment, which ignores a cookie header, and keeps its invariants |
| Requests.HttpRequest.SetCookie | PHPHttpRequest.class.php:140-142 | the cookie reads as the value and every other cookie as before |
| Requests.HttpRequest.Property | PHPHttpRequest.class.php:144-149 | only response can be read; any other name gives null |
| Requests.HttpRequest.SetUrl | PHPHttpRequest.class.php:166-173 | scheme and host come from the URL, the port defaults to 80 for http and 443 for https, the path to "/", and user, password and query keep their old values when the URL lacks them |
| Requests.HttpRequest.Open | PHPHttpRequest.class.php:160-178 | succeeds exactly when the upper-cased method is one of the five and the URL has an http or https scheme and a host; a valid method is stored even when the URL is refused; a refused URL changes no URL part |
| Requests.HttpRequest.AppendCookieLine | PHPHttpRequest.class.php:49-55 | the cookie loop adds one `Cookie:` line when there are cookies and nothing otherwise |
| Requests.HttpRequest.GenHeader | PHPHttpRequest.class.php:43-58 | the head is the request line, the Host line, one line per header, the cookie line, each ended by CRLF, and a blank line |
| Requests.HttpRequest.SendRequest | PHPHttpRequest.class.php:92-107 | the head and the data go to the scheme-prefixed host and the port; on a reply the handle holds its parse and is cleared, and with no connection nothing changes |
| Requests.Target | PHPHttpRequest.class.php:93 | the host fsockopen() gets, with `tls://` unless the scheme is http: the function has no contract of its own; Requests.HttpRequest.SendRequest states that the request goes there |
| Requests.HttpRequest.WriteForm | PHPHttpRequest.class.php:192-221 | a form goes out multipart when hasFile or multipart is set and urlencoded otherwise, with the matching Content-Type, and all its fields end up shifted |
| Requests.HttpRequest.WriteContent | PHPHttpRequest.class.php:192-227 | a form, a file (whole content, with its MIME type) or a string becomes the body, and only a string sets no Content-Type |
| Requests.HttpRequest.WriteBody | PHPHttpRequest.class.php:191-229 | the body is written and Content-Length is set to its length |
| Requests.HttpRequest.PrepareBody | PHPHttpRequest.class.php:189-229 | GET, HEAD and DELETE send no body and leave the headers and the form alone; every other method writes the body and its headers |
| Requests.HttpRequest.Send | PHPHttpRequest.class.php:188-233 | with no URL opened nothing is sent; otherwise the head with the body headers and the body go out, a reply is parsed into the response, and the result says whether a connection was made |

## Left out

- Socket I/O is not modelled. fsockopen, fwrite and the fgets loop become one
  `Exchange` parameter. It maps the target, the port and the request bytes to
  the reply, or to nothing when no connection is made.
- The boundary is a parameter. srand, microtime, rand and md5 are not
  modelled, and `IsBoundary` states the form the source gives it: 27 dashes
  and ten lower-case hex digits.
- parse_url is not modelled. `open()` takes the URL already split into its
  components (`Url`).
- Responses.LastExpiresWins: the expiry is kept as the trimmed text of the
  attribute, not converted with DateTime into a timestamp. A date that fails
  to parse would make the source fail on the call `getTimestamp()`, and the
  model does not capture that either.
- finfo, filesize, file_exists, is_file and file_get_contents are reads of a
  file-system snapshot (`FileSystem`). Each file there has a MIME type and
  content, and the snapshot is a parameter.
- Files.ReadAsString: the model follows file_get_contents() as it was up to
  PHP 7.0, where -1 was the default offset and meant the start of the file,
  and an unset path gives false. From PHP 7.1 a negative offset counts from
  the end, so the -1 that readAsString() passes by default reads only the
  last byte. readAsDataURI() and both upload paths of send()
  (PHPHttpRequest.class.php:206 and 224) then send that one byte. From
  PHP 8.0 a read through an unset path throws a ValueError instead of
  returning false. Offsets below -1 never reach file_get_contents(): the
  source replaces them by -1. An offset past the end reads as "", and a
  directory is read as "" whatever the offset and the limit.
- Magic `__get` and `__set` become `Property`, `Get` and `SetProperty`
  methods. The PHP coercion of the value assigned to `multipart` is the
  caller's `(bool)`.
- The notice that PHP raises when `list()` finds no '=' is not modelled. The
  missing piece is null and reads as "".
- PHP's conversion of numeric-string array keys to integers is not modelled.
  Keys are byte strings.
- Responses.Response.GetHeader: names are compared byte for byte after
  strtolower. PHP's `==` compares two numeric strings as numbers ("01" equals
  "1", "1e1" equals "10"), and that loose comparison is not modelled.
- Responses.Response.GetCookie: the same byte-for-byte comparison; PHP's
  numeric comparison of numeric-string names is not modelled.
- Responses.Select: the same byte-for-byte comparison, for the same reason.
- A boundary that also occurs inside a part's content is not detected, just
  as in the source.
- In the urlencoded branch a field is always text: a form holding a file has
  hasFile set and goes out as multipart. `TextOf` gives "" for a file there
  only to keep the function total.
- PHPHttpRequest.class.php line 130 closes the `if` in `setRequestHeader()`
  but not the method, so the file does not parse as written. The model uses
  the evidently intended method: the `if` with its one assignment.
- Requests.HttpRequest.Open: `Valid()` does not track whether a stored method
  is one of the five. `open()` stores the method before testing the URL, and
  the model keeps that order.
- Requests.HttpRequest.Send: on a failed connection the Content-Type and
  Content-Length headers that `send()` set stay in the table, and the shifted
  form fields stay shifted, as in the source.
- Assoc.Put: it overwrites every entry with the key. With the unique keys
  that every table in the model keeps, this is the single PHP assignment.
- `WriteForm`, `WriteContent`, `WriteBody`, `PrepareBody`, `ShiftNext`,
  `WriteMultipart` and `WriteUrlEncoded` are pieces of `send()`, and `SetUrl`
  is a piece of `open()`. Likewise, `AppendCookieLine` is a piece of
  `genHeader()`, and `ReadLines`, `ReadLine` and `ReadTokens` are pieces of
  the response constructor and `parseCookie()`. The source has each as one
  function.
