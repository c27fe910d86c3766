# CONFIG GET server core: RESP encoding and command dispatch

This project models the core of a small Redis-compatible server written in
Python (`app/main.py`). The server reads one request from a client and splits
it into whitespace-separated tokens. For `CONFIG GET dir` and
`CONFIG GET dbfilename` it means to reply with the parameter's name and
configured value. As written, that reply is an array of the bulk encodings
of the `bytes` reprs `b'...'`, so a client does not read the name and the
value (see "## Findings"). A parameter that was never configured raises
`AttributeError` instead. Any other `CONFIG` request gets the error
`ERR unknown command`. A blank request, with no tokens at all, raises
`IndexError`. Every other request, including one sent as a RESP array the
way Redis clients send commands, gets no reply. Replies are
written in the RESP2 wire format by the `encode` helper.

The model has six modules:

- `Decimal`: the base-10 text of a length, as an f-string writes
  `{len(data)}`, and a reader for canonical decimals.
- `Resp`: the reply encoder `encode`. The `DataType` enum becomes the
  constructors of `Reply`. Python `str` and `bytes` values are
  `PyStr.Str` and `PyStr.Bytes`: an f-string writes the repr `b'...'` of a
  `bytes` value, while `len` counts its raw bytes.
- `ReplyReader`: a RESP2 reader for bulk strings, arrays of bulk strings and
  simple errors. This is what a client does with the reply. The reading is
  proved to be the exact inverse of the encoding, in both directions, for
  bulk strings and arrays of `str` values and for error messages without a
  carriage return. For `bytes` values it is proved that no reading recovers
  what was written.
- `PyText`: `str.strip()`, `str.split()`, `str.upper()` and `str.lower()`
  on the characters that matter for the server.
- `Dispatch`: `Constant.INVALID_COMMAND`, the reply selection of
  `handle_command`, and `handle_client` from the decoded request text on.
  `HandleCommand` returns an `Outcome`:
  - `NoReply`: nothing is written;
  - `Respond(text)`: a reply is written;
  - `Raise(IndexError)` or `Raise(AttributeError)`: the exception ends the
    handler.
- `Wrappers`: `Option`.

The configuration globals `dir` and `dbfilename` (lines 16-17) are
parameters of type `Option<string>`. `None` is their initial value.

Redis documents that `CONFIG GET` of a parameter it does not know answers
with an empty array. This code (lines 45-47) answers with the
unknown-command error instead. The model follows the code:
`Dispatch.OtherConfigIsUnknown` proves the error reply and that it is not
the empty array.

## Model

| member | source | states |
|---|---|---|
| Decimal.DigitsCanonical | app/main.py:27 | The length field written by `{len(data)}` is digits only, with no leading zero except for the length 0 itself. |
| Decimal.ValueOfDigits | app/main.py:27 | The digits of the length field denote the length itself. |
| Decimal.DigitsOfValue | app/main.py:27 | Every canonical decimal text is the length field of exactly one length, so the format loses nothing. |
| Decimal.ReadNatOfDigits | app/main.py:25-27 | A length field followed by a non-digit reads back as the same length and the same remaining text. |
| Decimal.ReadNatSound | app/main.py:25-27 | Whatever the decimal reader accepts is a length field followed by text that does not start with a digit. |
| Decimal.Digits | app/main.py:27 | Models the base-10 text `{len(data)}` writes for a length. Its properties are stated by DigitsCanonical and ValueOfDigits. |
| Resp.Len | app/main.py:25-27 | Models `len` of the value: characters of a `str`, bytes of a `bytes` (one character per byte, see "## Left out"). |
| Resp.Interpolate | app/main.py:25-27 | Models the f-string text of the value: a `str` as itself, a `bytes` value as its repr `b'...'` without escapes (see "## Left out"). |
| Resp.EncodeBulk | app/main.py:26-27 | Models the bulk-string branch `$<len>\r\n<data>\r\n`, with `len` of the raw value and the f-string text of the value. Its properties are stated by the ReplyReader lemmas. |
| Resp.Encode | app/main.py:20-30 | Models `encode` for the three `DataType` tags: the array header and its bulk-encoded elements, one bulk string, or `-<msg>\r\n`. Its properties are stated by the ReplyReader lemmas. |
| Resp.BulkPrefixMatchesPayload | app/main.py:27 | The `$` prefix equals the length of what is written exactly when the value is a `str`. For `bytes`, the written repr is at least three characters longer than the prefix says: exactly three for printable ASCII bytes without quotes or backslashes, the case the model covers (see `Resp.Interpolate` under "## Left out"). |
| Resp.EmptyArray | app/main.py:25 | An empty list encodes as `*0\r\n`. |
| Resp.EncodeBulksAppend | app/main.py:25 | The joined element encodings of two lists placed one after the other are the two joins concatenated. |
| ReplyReader.ReadEncodedBulk | app/main.py:26-27 | A bulk string of a `str` reads back as exactly that text, whatever follows it. |
| ReplyReader.ReadBulkSound | app/main.py:26-27 | Whatever a client accepts as a bulk string is the bulk encoding of the payload it returns. |
| ReplyReader.BytesBulkMisframed | app/main.py:27 | A bulk string of a `bytes` value never reads back as the repr that was written, nor as the raw bytes that were meant. |
| ReplyReader.BytesBulkOfDirUnreadable | app/main.py:41 | `"dir".encode()` is bulk-encoded as `$3\r\nb'dir'\r\n`, and a client cannot read that at all. |
| ReplyReader.ReadEncodedBulks | app/main.py:25 | The join of bulk-encoded texts reads back as the same texts, in order. |
| ReplyReader.ReadBulksCount | app/main.py:25 | Reading `n` bulk strings yields exactly `n` payloads. |
| ReplyReader.ReadBulksSound | app/main.py:25 | Whatever is read as `n` bulk strings is their join followed by the remaining text. |
| ReplyReader.ReadEncodedArray | app/main.py:24-25 | An array of `str` values reads back as the same texts, in order, followed by the same remaining text. |
| ReplyReader.ReadArraySound | app/main.py:24-25 | Whatever a client accepts as an array is the array encoding of the texts it returns. |
| ReplyReader.ReadEncodedError | app/main.py:28-29 | An error message without a carriage return reads back unchanged. |
| ReplyReader.ReadErrorSound | app/main.py:28-29 | Whatever a client accepts as an error is the error encoding of a message without a carriage return. |
| PyText.IsSpace | app/main.py:75 | The characters Python's argument-less `strip()` and `split()` treat as whitespace. |
| PyText.StripLeft | app/main.py:75 | `strip()` removes exactly the leading whitespace: what remains is a suffix that is empty or starts with a non-space. |
| PyText.StripRight | app/main.py:75 | `strip()` removes exactly the trailing whitespace: what remains is a prefix that is empty or ends with a non-space. |
| PyText.Strip | app/main.py:75 | Models `str.strip()` as StripRight of StripLeft. Its contract is given by StripLeft and StripRight. |
| PyText.Tokenize | app/main.py:75 | Models `message.strip().split()`. StripThenSplit states that the strip changes nothing. |
| PyText.Split | app/main.py:75 | Every token `split()` returns is non-empty and contains no whitespace. SplitInterleave and SplitSeparates state that the tokens are exactly the maximal runs between whitespace. |
| PyText.SplitKeepsText | app/main.py:75 | The tokens concatenated are the message with its whitespace removed, so no character is lost or reordered. |
| PyText.SplitEmptyIffBlank | app/main.py:75 | There are no tokens exactly when the message is all whitespace. |
| PyText.SplitIgnoresTrailingSpace | app/main.py:75 | Whitespace after the message, such as the `\r\n` a client sends, changes no token. |
| PyText.SplitSkipsLeadingSpace | app/main.py:75 | Whitespace before the message changes no token. |
| PyText.StripThenSplit | app/main.py:75 | Stripping before splitting changes nothing. |
| PyText.SplitJoinSpace | app/main.py:75 | Tokens joined by single spaces split back into the same tokens. |
| PyText.SplitInterleave | app/main.py:75 | Tokens separated by any whitespace runs, with optional whitespace at both ends, split back into exactly those tokens. |
| PyText.SplitSeparates | app/main.py:75 | Every text is its own tokens separated by whitespace runs, none empty between two tokens. With SplitInterleave, `split()` returns `ts` exactly when the text is `ts` separated by whitespace. |
| PyText.Upper | app/main.py:37 | Models `str.upper()` character by character (see "## Left out" for the characters covered). |
| PyText.Lower | app/main.py:39-42 | Models `str.lower()` character by character (see "## Left out" for the characters covered). |
| PyText.UpperOfSpelling | app/main.py:37 | `upper()` maps every mixed-case spelling of an upper-case ASCII word to that word. |
| PyText.LowerOfSpelling | app/main.py:39-42 | `lower()` maps every mixed-case spelling of a lower-case ASCII word to that word. |
| PyText.SpellingOfUpper | app/main.py:37 | Conversely, an ASCII text that `upper()` maps to a word is a mixed-case spelling of that word. |
| PyText.SpellingOfLower | app/main.py:39-42 | Conversely, an ASCII text that `lower()` maps to a word is a mixed-case spelling of that word. |
| Dispatch.RouteOf | app/main.py:37-50 | Models the branch conditions of `handle_command`. The lemmas below state which tokens select which branch. |
| Dispatch.ConfigGetAsWritten | app/main.py:41-44 | The CONFIG GET reply as lines 41 and 44 build it: the bulk encodings of the `bytes` name and value, bulk-encoded again as the array's two elements. |
| Dispatch.HandleCommand | app/main.py:32-50 | Models `handle_command`, including the exceptions it raises. The lemmas below state its outcome for each kind of token list. |
| Dispatch.HandleClient | app/main.py:65-76 | Models `handle_client` from the decoded request text on: tokenize, then dispatch. |
| Dispatch.HandleCommandIntended | app/main.py:41-44 | `handle_command` with the CONFIG GET reply corrected to an array of the name and the value. |
| Dispatch.SilentUnlessConfig | app/main.py:36-52 | No reply is written exactly when there is a first token and its upper case is not `CONFIG`. |
| Dispatch.IndexErrorIffNoTokens | app/main.py:37 | `commands[0]` raises `IndexError` exactly when there are no tokens. |
| Dispatch.BlankRequestRaises | app/main.py:75-76 | A request raises `IndexError` exactly when it is all whitespace. |
| Dispatch.UnknownCommandText | app/main.py:13 | The unknown-command reply is `-ERR unknown command\r\n`. |
| Dispatch.UnknownCommandReads | app/main.py:47 | A client reads `ERR unknown command` back from the unknown-command reply. |
| Dispatch.ShortConfigIsUnknown | app/main.py:48-50 | `CONFIG` with fewer than three tokens gets the unknown-command error. |
| Dispatch.OtherConfigIsUnknown | app/main.py:45-47 | `CONFIG` whose second token is not `get`, or whose third is neither `dir` nor `dbfilename`, gets the unknown-command error and not an empty array. |
| Dispatch.ConfigGetAnyCase | app/main.py:37-42 | `CONFIG`, `get` and the parameter name in any mix of ASCII cases select that parameter. |
| Dispatch.ConfigGetOnlyAsciiSpellings | app/main.py:37-42 | For ASCII tokens, CONFIG GET selects a parameter only when the tokens spell `CONFIG`, `get` and its name in some mix of cases. |
| Dispatch.DotlessIConfig | app/main.py:37 | `upper()` maps the dotless i to `I`, so `conf` + U+0131 + `g get dir` selects `dir`. |
| Dispatch.LigatureConfig | app/main.py:37 | `upper()` maps the ligature U+FB01 to `FI`, so the five-character token `con` + U+FB01 + `g` counts as CONFIG. |
| Dispatch.StarCommandIgnored | app/main.py:37 | A first token starting with `*` is never CONFIG in any case, so no reply is written. |
| Dispatch.RespFramedRequestIgnored | app/main.py:37-76 | A request sent as a RESP array, which starts with `*`, gets no reply. |
| Dispatch.ExtraTokensIgnored | app/main.py:38-44 | Tokens after the third never change the outcome. |
| Dispatch.UnsetParamRaises | app/main.py:41-44 | A selected parameter raises `AttributeError` exactly when it was never configured. |
| Dispatch.ConfigGetAsWrittenReads | app/main.py:41-44 | The CONFIG GET reply is one two-element array. A client reads the bulk encodings of the `bytes` name and value, never the name and value themselves. |
| Dispatch.ConfigGetDirExample | app/main.py:41 | With dir `/tmp`, a client reads the fragments `$3\r\nb'dir'\r\n` and `$4\r\nb'/tmp'\r\n`, and the first of them is not a readable bulk string. |
| Dispatch.RepliesAreFrames | app/main.py:41-50 | Every reply written is one complete frame: the unknown-command error, or an array of two elements with nothing after it. |
| Dispatch.ConfigGetIntendedReads | app/main.py:41-44 | The corrected CONFIG GET reply reads back as exactly the name and the value. |
| Dispatch.IntendedConfigGet | app/main.py:39-44 | With the corrected reply, a CONFIG GET for a configured parameter is read as the parameter's name and its value. |
| Dispatch.IntendedAgreesElsewhere | app/main.py:36-50 | The correction changes only the CONFIG GET reply. Every other outcome is unchanged. |
| Dispatch.JoinedRequest | app/main.py:75-76 | A request of space-joined tokens followed by any whitespace is dispatched on exactly those tokens. |
| Dispatch.ConfigGetDirRoute | app/main.py:37-39 | The words `CONFIG GET dir` select the `dir` parameter. |
| Dispatch.ConfigGetDirRequest | app/main.py:41 | The request line `CONFIG GET dir\r\n` with dir set is answered with the CONFIG GET reply as the source builds it. |

## Left out

- Socket I/O (`reader.read(100)`, `writer.write`, `drain`, `close`) and the asyncio server are left out. The decoded request text is a parameter, and the `Outcome` says what would be written.
- The 100-byte read limit is left out: the model reads the whole request.
- UTF-8 decoding of the request and `response.encode()` of the reply are not modelled. Text is a sequence of characters.
- `Resp.Len` does not model UTF-8 byte counts. A `bytes` value holds one character per byte, so `len` of non-ASCII text is not modelled.
- `Resp.Interpolate` does not model repr escaping. A `bytes` value with quotes, backslashes or non-printable bytes is written as `b'` + raw + `'`, without Python's escapes.
- `PyText.Upper` and `PyText.Lower` do not model full Unicode case mapping. `Upper` maps ASCII letters and the non-ASCII characters whose upper case consists of ASCII letters (ß, ı, ſ, the ligatures U+FB00 to U+FB06). `Lower` maps ASCII letters, the Kelvin sign (to `k`) and U+0130 (to `i` followed by the combining dot U+0307). Every other character maps to itself in the model. Python maps some of them to an ASCII letter followed by a non-ASCII mark (U+0149 upper-cases to U+02BC `N`, U+01F0 to `J` and U+030C). No omitted character maps to a text made only of ASCII letters, so none of them can make a token compare equal to `CONFIG`, `get`, `dir` or `dbfilename`.
- `print` logging, `start_server` and `main` are left out. This includes argument parsing, where an empty `--dir` or `--dbfilename` leaves the value unset. The configured values are parameters.
- The `replication` dictionary (line 18) is never read by the core and is left out.
- The `return None` of `encode` (line 30) cannot be reached: `Reply` has exactly the three `DataType` members as constructors.

## Findings

| source | as written | input that shows it | evidently intended | confidence | as-written member | corrected member |
|---|---|---|---|---|---|---|
| app/main.py:41-44 | The name and the value are bulk-encoded, and those encodings are then bulk-encoded again as the array's elements. | `CONFIG GET dir` with dir `/tmp`: the client reads the elements `$3\r\nb'dir'\r\n` and `$4\r\nb'/tmp'\r\n` | An array whose elements are the texts `dir` and `/tmp` | not executed; proved about the model | Dispatch.ConfigGetAsWrittenReads | Dispatch.ConfigGetIntendedReads |
| app/main.py:27 | A `bytes` value is written as its repr `b'...'`, while the prefix counts only its raw bytes. | `"dir".encode()` is written as `$3\r\nb'dir'\r\n`: the prefix announces 3 characters, but 6 follow. | Write the decoded text, so the prefix counts what follows it | not executed; proved about the model | ReplyReader.BytesBulkMisframed | ReplyReader.ReadEncodedBulk |
