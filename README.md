# VnPay payment client — a Dafny model

This project models the VnPay integration of the OnlineLearningPlatformAss2
service layer, as found in `OnlineLearningPlatformAss2.Service/Services/VnPayService.cs`.
It covers four pieces:

- **`VnPayLibrary`.** It keeps two `SortedList<string, string>` parameter maps ordered by `VnPayCompare`. It builds the signed redirect URL from the request map. It checks the signature of the response map.
- **`VnPayCompare`.** The ordinal string comparer that fixes the canonical order of the parameters.
- **`Utils.HmacSHA512`.** The keyed digest rendered as lower-case hex.
- **`VnPayService`.**
  - `CreatePaymentUrl` fills a library with the twelve `vnp_*` request parameters and signs them.
  - `PaymentExecute` reads the gateway's callback query back into a `VnPayResponseModel`.

Modules, one file each, in dependency order:

| file | module | contents |
|---|---|---|
| `wrappers.dfy` | `Wrappers` | `Option` (a .NET null) and `Result` (a thrown exception, by kind) |
| `text.dfy` | `Text` | `string.IsNullOrEmpty`, ordinal `StartsWith`, case-insensitive equality, UTF-8 |
| `ordinal.dfy` | `Ordinal` | `VnPayCompare.Compare` over UTF-16 code units; it is a strict total order |
| `url_encoding.dfy` | `UrlEncoding` | `WebUtility.UrlEncode` |
| `signing.dfy` | `Signing` | `Utils.HmacSHA512` with the MAC as a parameter; hex rendering and decoding |
| `numbers.dfy` | `Numbers` | `Convert.ToInt64(string)` and `long.ToString()` |
| `param_set.dfy` | `ParamSet` | a `SortedList` as a strictly sorted entry list; its canonical string |
| `vnpay_library.dfy` | `VnPayLib` | the `VnPayLibrary` class |
| `vnpay_service.dfy` | `VnPayService` | `CreatePaymentUrl`, `PaymentExecute`, the callback lemmas |

How the model is built:

- **`VnPayLibrary` is a class.**
  - Its two fields are the sorted entry lists, and `Valid()` holds them sorted with no empty value.
  - Its methods change the lists in place.
  - Each method states its new state through `ToMap` (the dictionary a list stands for) and `SignedString` (the canonical string of a dictionary).
  - `ParamSet.SortedUnique` proves the canonical string does not depend on the order of the adds: two sorted lists with the same dictionary are equal.
- **The two service operations are methods with the source's loops.** Each is proved against a specification:
  - `CreatePaymentUrl` against `PaymentParams`, the dictionary of the request;
  - `PaymentExecute` against the ghost function `Execute`, which lists the outcomes in the order the code reaches them.
- **Outside inputs become parameters.** The HMAC-SHA512 computation, the clock, the client IP and the configuration are all parameters (see "Left out").

## Behaviour of the code worth knowing

- **Space encoding.** `WebUtility.UrlEncode` writes a space as `+`, not `%20` (`UrlEncoding.SpaceIsPlus`).
- **Duplicate keys.** `SortedList.Add` throws on a key already present; it does not overwrite. `AddRequestData` and `AddResponseData` return `Failure(DuplicateKey)` and leave the list unchanged.
- **When the ids are parsed.**
  - `PaymentExecute` parses `vnp_TxnRef` and then `vnp_TransactionNo` before it checks the signature.
  - So a malformed or missing id is an error whatever the hash (`BadTxnRefFailsFirst`, `MissingTxnRefIsBadFormat`, `NonNumericTxnRefIsBadFormat`, and the same three for `vnp_TransactionNo`).
  - A missing id is not read as zero: `Convert.ToInt64("")` throws (`Numbers.EmptyIsBadFormat`).
- **The round trip.**
  - A callback that echoes only the request's parameters and their hash is rejected, because it has no `vnp_TransactionNo` (`PlainEchoRejected`).
  - The round trip holds once the gateway's own fields are added, whatever order the parameters arrive in (`PaymentRoundTrip`).
  - The order id it recovers is the tick count sent as `vnp_TxnRef`, not the order's id. The order's id comes back only inside the order description.
- **Tampering.**
  - The signed string loses nothing: distinct parameter dictionaries have distinct signed strings (`ParamSet.SignedStringInjective`, built on `UrlEncoding.UrlEncodeInjective`).
  - So a callback whose parameters differ from the signed ones is rejected for any MAC that tells the two strings apart (`TamperedCallbackRejected`).

## Model

| member | source | states |
|---|---|---|
| Ordinal.Compare | OnlineLearningPlatformAss2.Service/Services/VnPayService.cs:176-183 | zero exactly for equal strings (or both null); null sorts below every string; otherwise the ordinal comparison of the UTF-16 code units |
| Ordinal.CompareAntisymmetric | OnlineLearningPlatformAss2.Service/Services/VnPayService.cs:176-183 | swapping the arguments negates the result, as IComparer requires |
| Ordinal.CompareTransitive | OnlineLearningPlatformAss2.Service/Services/VnPayService.cs:176-183 | x < y and y < z give x < z |
| Ordinal.LessIsStrictTotalOrder | OnlineLearningPlatformAss2.Service/Services/VnPayService.cs:174-183 | the comparer's "less than" is irreflexive, total on distinct strings, asymmetric and transitive, so the SortedList order is well defined |
| Ordinal.Utf16Injective | OnlineLearningPlatformAss2.Service/Services/VnPayService.cs:182 | distinct strings have distinct UTF-16 forms, so ordinal comparison tells them apart |
| Ordinal.UpperBeforeLower | OnlineLearningPlatformAss2.Service/Services/VnPayService.cs:182 | ordinal order is not alphabetical: "vnp_Z" sorts before "vnp_a" |
| Ordinal.SurrogatePairsSortBelowHighBmp | OnlineLearningPlatformAss2.Service/Services/VnPayService.cs:182 | comparison is by UTF-16 unit, not by code point: a supplementary character sorts below U+FFFD |
| Text.Utf8 | OnlineLearningPlatformAss2.Service/Services/VnPayService.cs:119 | the UTF-8 form of a character is one to four bytes, and one byte exactly for ASCII |
| Text.Utf8LeadByte | OnlineLearningPlatformAss2.Service/Services/VnPayService.cs:119 | the first byte of an encoding tells its length: below 0x80 one byte, 0xC0-0xDF two, 0xE0-0xEF three, 0xF0 and above four |
| Text.Utf8Decodes | OnlineLearningPlatformAss2.Service/Services/VnPayService.cs:119 | decoding the one to four bytes gives the character back |
| Text.Utf8Injective | OnlineLearningPlatformAss2.Service/Services/VnPayService.cs:119 | distinct characters have distinct UTF-8 forms |
| Text.EqualsIgnoreCase | OnlineLearningPlatformAss2.Service/Services/VnPayService.cs:141 | the invariant-culture case-insensitive equality, as ASCII case folding; for a hex digest it holds iff the other string decodes to the same bytes (see `Signing.EqualsIgnoreCaseIffSameDigest`) |
| UrlEncoding.PercentEncode | OnlineLearningPlatformAss2.Service/Services/VnPayService.cs:119 | three characters per byte, each '%' or an upper-case hex digit |
| UrlEncoding.UrlEncode | OnlineLearningPlatformAss2.Service/Services/VnPayService.cs:119 | never shorter than its input; see `UrlEncodeAlphabet` (only safe characters, '+' and '%'), `UrlEncodeInjective`, `UrlEncodeSafeIdentity` and `SpaceIsPlus` |
| UrlEncoding.UrlEncodeAlphabet | OnlineLearningPlatformAss2.Service/Services/VnPayService.cs:119 | an encoded string holds only safe characters, '+' and '%' |
| UrlEncoding.UrlEncodeNoSeparators | OnlineLearningPlatformAss2.Service/Services/VnPayService.cs:119 | an encoded key or value never contains '&' or '='; `ParamSet.PairInjective` and `ParamSet.JoinInjective` use this to cut the canonical string back into its keys and values |
| UrlEncoding.UrlEncodeSafeIdentity | OnlineLearningPlatformAss2.Service/Services/VnPayService.cs:119 | a string of safe characters, such as each of the twelve request keys, encodes to itself |
| UrlEncoding.SpaceIsPlus | OnlineLearningPlatformAss2.Service/Services/VnPayService.cs:119 | a space encodes as '+' |
| UrlEncoding.PercentEncodeAt | OnlineLearningPlatformAss2.Service/Services/VnPayService.cs:119 | byte i is written at positions 3i to 3i+2 as '%' and its two upper-case hex digits |
| UrlEncoding.PercentEncodeInjective | OnlineLearningPlatformAss2.Service/Services/VnPayService.cs:119 | distinct byte strings have distinct percent-encodings |
| UrlEncoding.PercentPrefix | OnlineLearningPlatformAss2.Service/Services/VnPayService.cs:119 | a percent-encoded character is read back from the start of an encoded string, whatever follows it |
| UrlEncoding.EncodeCharPrefix | OnlineLearningPlatformAss2.Service/Services/VnPayService.cs:119 | the encoding of one character is never a proper prefix of another's: an encoded string gives back its first character and the encoding of the rest |
| UrlEncoding.UrlEncodeConcat | OnlineLearningPlatformAss2.Service/Services/VnPayService.cs:119 | encoding a concatenation is concatenating the encodings |
| UrlEncoding.UrlEncodeInjective | OnlineLearningPlatformAss2.Service/Services/VnPayService.cs:119 | distinct strings have distinct encodings |
| Signing.HmacSha512 | OnlineLearningPlatformAss2.Service/Services/VnPayService.cs:188-203 | a null key throws; otherwise the result is the hex rendering of the MAC: 128 lower-case hex digits |
| Signing.HexOf | OnlineLearningPlatformAss2.Service/Services/VnPayService.cs:196-199 | two characters per byte; see `HexOfShape` (lower-case digits of byte i at 2i and 2i+1) and its inverse `ParseHex` (`HexRoundTrip`) |
| Signing.HexOfShape | OnlineLearningPlatformAss2.Service/Services/VnPayService.cs:196-199 | two lower-case digits per byte, byte i at positions 2i and 2i+1 |
| Signing.ParseHex | OnlineLearningPlatformAss2.Service/Services/VnPayService.cs:141 | a decoded hex string has half as many bytes as it has characters |
| Signing.HexRoundTrip | OnlineLearningPlatformAss2.Service/Services/VnPayService.cs:198 | decoding the rendered digest gives the digest back |
| Signing.ByteHexMatch | OnlineLearningPlatformAss2.Service/Services/VnPayService.cs:141 | a byte's two digits match two characters ignoring case iff those characters decode to that byte |
| Signing.EqualsIgnoreCaseIffSameDigest | OnlineLearningPlatformAss2.Service/Services/VnPayService.cs:141 | a received hash matches the computed one ignoring case iff it decodes, in either letter case, to the same digest |
| Signing.UpperCaseHashMatches | OnlineLearningPlatformAss2.Service/Services/VnPayService.cs:141 | an upper-cased copy of the computed hash is accepted |
| Numbers.ToInt64 | OnlineLearningPlatformAss2.Service/Services/VnPayService.cs:58-59 | a parsed value lies in the range of a long; a failure is a format error or an overflow |
| Numbers.NatToString | OnlineLearningPlatformAss2.Service/Services/VnPayService.cs:78-79 | non-empty and all decimal digits |
| Numbers.FormatInt64 | OnlineLearningPlatformAss2.Service/Services/VnPayService.cs:78-79 | non-empty, with a leading '-' exactly for a negative number; `ToInt64` is its inverse (`FormatRoundTrip`) |
| Numbers.FormatRoundTrip | OnlineLearningPlatformAss2.Service/Services/VnPayService.cs:58-78 | parsing a formatted long gives it back |
| Numbers.ParseDigits | OnlineLearningPlatformAss2.Service/Services/VnPayService.cs:58-59 | the digits after the sign, with the sign applied: a value in the range of a long, or a format error or overflow |
| Numbers.LeadingZerosValue | OnlineLearningPlatformAss2.Service/Services/VnPayService.cs:58 | leading zeros do not change the value of a digit string |
| Numbers.SkipBlanksAndPlus | OnlineLearningPlatformAss2.Service/Services/VnPayService.cs:58 | leading white space and a '+' sign before the first digit are skipped |
| Numbers.DigitsThenBlanks | OnlineLearningPlatformAss2.Service/Services/VnPayService.cs:58 | digits followed by trailing white space parse to the value of the digits |
| Numbers.LenientSyntax | OnlineLearningPlatformAss2.Service/Services/VnPayService.cs:58 | for every long n >= 0, any leading white space, an optional '+', any number of leading zeros, the decimal digits of n and any trailing white space parse to n |
| Numbers.EmptyIsBadFormat | OnlineLearningPlatformAss2.Service/Services/VnPayService.cs:58-59 | the "" read for a missing field is a format error |
| Numbers.NonNumericIsBadFormat | OnlineLearningPlatformAss2.Service/Services/VnPayService.cs:58-59 | a string that holds, anywhere, a character that is not white space, a digit, a sign or NUL (as "12a" or "abc") is a format error |
| Numbers.TooLargeIsOverflow | OnlineLearningPlatformAss2.Service/Services/VnPayService.cs:58-59 | a digit string above the long range is an overflow, not a format error |
| ParamSet.ToMapKeys | OnlineLearningPlatformAss2.Service/Services/VnPayService.cs:88-89 | the dictionary's keys are exactly the list's keys |
| ParamSet.ToMapAt | OnlineLearningPlatformAss2.Service/Services/VnPayService.cs:109 | in a sorted list every entry is what the dictionary holds for its key |
| ParamSet.InsertSorted | OnlineLearningPlatformAss2.Service/Services/VnPayService.cs:95 | one entry longer; see `InsertSortedCorrect` (sorted, exactly one binding added) and `InsertSortedValues` |
| ParamSet.InsertSortedCorrect | OnlineLearningPlatformAss2.Service/Services/VnPayService.cs:95 | inserting a new key keeps the list sorted and adds exactly that key and value to the dictionary |
| ParamSet.InsertSortedValues | OnlineLearningPlatformAss2.Service/Services/VnPayService.cs:93-96 | inserting a non-empty value keeps every stored value non-empty |
| ParamSet.RemoveKey | OnlineLearningPlatformAss2.Service/Services/VnPayService.cs:149 | never longer; see `RemoveKeyMap` (exactly that key dropped) and `RemoveKeySorted` |
| ParamSet.RemoveKeyMap | OnlineLearningPlatformAss2.Service/Services/VnPayService.cs:147-155 | removing drops exactly that key from the dictionary |
| ParamSet.RemoveKeySorted | OnlineLearningPlatformAss2.Service/Services/VnPayService.cs:147-155 | removing keeps the list sorted |
| ParamSet.QueryString | OnlineLearningPlatformAss2.Service/Services/VnPayService.cs:114-121 | the StringBuilder text is empty or ends in '&'; see `QueryStringIsJoin` |
| ParamSet.QueryStringIsJoin | OnlineLearningPlatformAss2.Service/Services/VnPayService.cs:114-129 | with no empty value, the StringBuilder text is the pairs joined by '&' plus one trailing '&', or "" for no entries, so trimming one character gives the canonical string |
| ParamSet.PairInjective | OnlineLearningPlatformAss2.Service/Services/VnPayService.cs:119 | a "key=value" pair gives back its key and value: its first '=' is the one between them |
| ParamSet.JoinSeparators | OnlineLearningPlatformAss2.Service/Services/VnPayService.cs:114-128 | the canonical string holds an '&' exactly when it joins two entries or more |
| ParamSet.JoinInjective | OnlineLearningPlatformAss2.Service/Services/VnPayService.cs:114-128 | distinct entry lists have distinct canonical strings |
| ParamSet.SortedUnique | OnlineLearningPlatformAss2.Service/Services/VnPayService.cs:88-89 | two sorted lists with the same dictionary are equal, so the signed string does not depend on the order of the adds |
| ParamSet.CanonicalOfSorted | OnlineLearningPlatformAss2.Service/Services/VnPayService.cs:115-128 | the canonical list of a sorted list's dictionary is that list, and its signed string is the list joined |
| ParamSet.SignedStringInjective | OnlineLearningPlatformAss2.Service/Services/VnPayService.cs:114-142 | distinct dictionaries have distinct signed strings, so the signature covers every key and value |
| VnPayLib.AppendPairs | OnlineLearningPlatformAss2.Service/Services/VnPayService.cs:114-121 | the loop writes "key=value&" for every entry, in key order; with no empty value stored that is the joined list plus '&' |
| VnPayLib.VnPayLibrary.constructor | OnlineLearningPlatformAss2.Service/Services/VnPayService.cs:88-89 | both lists start empty and valid |
| VnPayLib.VnPayLibrary.AddRequestData | OnlineLearningPlatformAss2.Service/Services/VnPayService.cs:91-97 | a null or empty value changes nothing; a key already present throws and changes nothing; otherwise the dictionary gains exactly that key and value; the list stays sorted with no empty value |
| VnPayLib.VnPayLibrary.AddResponseData | OnlineLearningPlatformAss2.Service/Services/VnPayService.cs:99-105 | the same rule on the response list |
| VnPayLib.VnPayLibrary.GetResponseData | OnlineLearningPlatformAss2.Service/Services/VnPayService.cs:107-110 | the value stored under the key, or "" exactly when the key is absent |
| VnPayLib.VnPayLibrary.CreateRequestUrl | OnlineLearningPlatformAss2.Service/Services/VnPayService.cs:112-135 | a null secret throws; otherwise base + "?" + canonical string + "&vnp_SecureHash=" + hex MAC of the canonical string, or base + "?vnp_SecureHash=" + the MAC of "" when no parameter was added |
| VnPayLib.VnPayLibrary.RemoveResponseKey | OnlineLearningPlatformAss2.Service/Services/VnPayService.cs:147-155 | ContainsKey then Remove: the key is gone, everything else stays, the list stays valid |
| VnPayLib.VnPayLibrary.GetResponseRaw | OnlineLearningPlatformAss2.Service/Services/VnPayService.cs:144-171 | vnp_SecureHashType and vnp_SecureHash are removed for good; the result is the canonical string of what is left |
| VnPayLib.VnPayLibrary.ValidateSignature | OnlineLearningPlatformAss2.Service/Services/VnPayService.cs:137-142 | a null secret throws; otherwise true iff the received hash equals, ignoring case, the hex MAC of the rebuilt string, iff it decodes to that MAC; a null hash is never accepted |
| VnPayService.RequestKeysDistinct | OnlineLearningPlatformAss2.Service/Services/VnPayService.cs:27-40 | the twelve request keys are distinct, so no add in CreatePaymentUrl can throw |
| VnPayService.PutAllKeys | OnlineLearningPlatformAss2.Service/Services/VnPayService.cs:27-40 | a key is in the request dictionary iff some add carried it with a value that is neither null nor empty |
| VnPayService.PutAllAt | OnlineLearningPlatformAss2.Service/Services/VnPayService.cs:27-40 | with distinct keys, each add's key is present iff its value was non-null and non-empty, and then holds that value |
| VnPayService.PutAllValues | OnlineLearningPlatformAss2.Service/Services/VnPayService.cs:93-96 | no stored request value is empty |
| VnPayService.PaymentParams | OnlineLearningPlatformAss2.Service/Services/VnPayService.cs:27-40 | the request dictionary of CreatePaymentUrl; see `PaymentParamsFacts`, `NullConfigDropped` and `RequestInputsSent` |
| VnPayService.NextKeyFresh | OnlineLearningPlatformAss2.Service/Services/VnPayService.cs:27-40 | each add of CreatePaymentUrl meets a key not yet present, and its effect is one Put |
| VnPayService.RequestKeysUnencoded | OnlineLearningPlatformAss2.Service/Services/VnPayService.cs:119 | each of the twelve request keys is its own URL encoding |
| VnPayService.RequestValues | OnlineLearningPlatformAss2.Service/Services/VnPayService.cs:27-40 | one value per request key, in the order of the adds |
| VnPayService.PaymentParamsFacts | OnlineLearningPlatformAss2.Service/Services/VnPayService.cs:23-40 | the request holds vnp_OrderType "other", vnp_OrderInfo "Thanh toan don hang:" + order id, a vnp_TxnRef that parses back to the tick count, only the twelve keys, and no empty value |
| VnPayService.NullConfigDropped | OnlineLearningPlatformAss2.Service/Services/VnPayService.cs:27-39 | each of the six configuration values (version, command, terminal code, currency, locale, return URL) is sent iff it is neither null nor empty, and is then sent unchanged under its own key |
| VnPayService.RequestInputsSent | OnlineLearningPlatformAss2.Service/Services/VnPayService.cs:30-34 | the scaled amount, the creation date and the client address are each sent iff non-empty, unchanged; an empty address (what Utils.GetIpAddress returns for a peer without an IPv4 address) leaves vnp_IpAddr out |
| VnPayService.CreatePaymentUrl | OnlineLearningPlatformAss2.Service/Services/VnPayService.cs:21-45 | a null secret throws; otherwise the URL is base + "?" + canonical string of the request + "&vnp_SecureHash=" + hex MAC of that string |
| VnPayService.FirstValue | OnlineLearningPlatformAss2.Service/Services/VnPayService.cs:60 | non-null iff some parameter has the key, and then the value of the first parameter with that key |
| VnPayService.IsVnpKey | OnlineLearningPlatformAss2.Service/Services/VnPayService.cs:52 | the loop's filter; see `CollectSkipsForeign` and `ResponseKeysFresh` |
| VnPayService.Collect | OnlineLearningPlatformAss2.Service/Services/VnPayService.cs:50-56 | the response dictionary of the loop: only the error DuplicateKey, and on success only vnp_ keys with non-empty values; see `CollectContents` and `CollectSucceeds` |
| VnPayService.Execute | OnlineLearningPlatformAss2.Service/Services/VnPayService.cs:47-83 | a success needs a secret and an error-free read; a rejected signature gives Success = false with every other field null; an accepted one gives PaymentMethod "VnPay" and the received hash as the token |
| VnPayService.PaymentExecute | OnlineLearningPlatformAss2.Service/Services/VnPayService.cs:47-83 | the method's outcome is Execute of the query: errors, rejection and acceptance as that function lists them |
| VnPayService.CollectFailurePersists | OnlineLearningPlatformAss2.Service/Services/VnPayService.cs:50-56 | once an add has thrown, the rest of the query does not matter |
| VnPayService.CollectContents | OnlineLearningPlatformAss2.Service/Services/VnPayService.cs:50-56 | on success, every vnp_ parameter with a non-empty value is in the dictionary with its value, and every binding comes from such a parameter |
| VnPayService.CollectSucceeds | OnlineLearningPlatformAss2.Service/Services/VnPayService.cs:50-56 | the read succeeds exactly when no two kept parameters (vnp_ key, non-empty value) share a key |
| VnPayService.CollectRearranged | OnlineLearningPlatformAss2.Service/Services/VnPayService.cs:50-56 | the read depends only on which parameters arrive, not on their order |
| VnPayService.ExecuteReads | OnlineLearningPlatformAss2.Service/Services/VnPayService.cs:47-83 | the outcome depends only on the read dictionary and the first vnp_SecureHash value |
| VnPayService.ExecuteErrorReadsCollect | OnlineLearningPlatformAss2.Service/Services/VnPayService.cs:47-64 | an error depends on the read dictionary only, never on the hash received |
| VnPayService.CollectSkipsForeign | OnlineLearningPlatformAss2.Service/Services/VnPayService.cs:52 | a parameter without the vnp_ prefix never reaches the response list, wherever it stands |
| VnPayService.FirstValueSkips | OnlineLearningPlatformAss2.Service/Services/VnPayService.cs:60 | FirstOrDefault ignores a parameter with another key |
| VnPayService.ForeignParameterIgnored | OnlineLearningPlatformAss2.Service/Services/VnPayService.cs:50-60 | inserting a non-vnp_ parameter anywhere in the callback does not change the outcome |
| VnPayService.BadTxnRefFailsFirst | OnlineLearningPlatformAss2.Service/Services/VnPayService.cs:58-64 | an unparsable vnp_TxnRef is an error whatever the hash, secret or MAC |
| VnPayService.MissingTxnRefIsBadFormat | OnlineLearningPlatformAss2.Service/Services/VnPayService.cs:58 | a callback without vnp_TxnRef fails with a format error |
| VnPayService.NonNumericTxnRefIsBadFormat | OnlineLearningPlatformAss2.Service/Services/VnPayService.cs:58 | a vnp_TxnRef holding a letter or any other character no number contains fails with a format error whatever the hash, secret or MAC |
| VnPayService.BadTransactionNoFailsSecond | OnlineLearningPlatformAss2.Service/Services/VnPayService.cs:59-64 | with a readable vnp_TxnRef, an unparsable vnp_TransactionNo is that parse error whatever the hash, secret or MAC |
| VnPayService.MissingTransactionNoIsBadFormat | OnlineLearningPlatformAss2.Service/Services/VnPayService.cs:59 | a callback with a readable vnp_TxnRef but without vnp_TransactionNo fails with a format error |
| VnPayService.NonNumericTransactionNoIsBadFormat | OnlineLearningPlatformAss2.Service/Services/VnPayService.cs:59 | with a readable vnp_TxnRef, a vnp_TransactionNo holding such a character fails with a format error whatever the hash, secret or MAC |
| VnPayService.MismatchYieldsFailed | OnlineLearningPlatformAss2.Service/Services/VnPayService.cs:64-71 | a missing hash, or one that does not decode to the MAC of the rebuilt string, gives Success = false and nothing else |
| VnPayService.TamperedCallbackRejected | OnlineLearningPlatformAss2.Service/Services/VnPayService.cs:64-71 | a callback carrying the hash signed for parameters m, whose own parameters less the two hash fields are not m, gets Success = false, for any MAC that tells the two signed strings apart |
| VnPayService.CollectOfSorted | OnlineLearningPlatformAss2.Service/Services/VnPayService.cs:50-56 | reading back the query of a sorted list of vnp_ parameters gives its dictionary, without error |
| VnPayService.FirstValueLast | OnlineLearningPlatformAss2.Service/Services/VnPayService.cs:60 | FirstOrDefault finds a key that only the last parameter carries |
| VnPayService.MatchAccepted | OnlineLearningPlatformAss2.Service/Services/VnPayService.cs:64-82 | a hash that decodes (either case) to the MAC of the rebuilt string is accepted; the fields are the stored description, the parsed ids, the hash and the response code |
| VnPayService.EchoQuery | OnlineLearningPlatformAss2.Service/Services/VnPayService.cs:50-60 | a sorted parameter list followed by vnp_SecureHash reads back as the list's dictionary plus the hash, and FirstOrDefault finds the hash |
| VnPayService.EchoValidates | OnlineLearningPlatformAss2.Service/Services/VnPayService.cs:73-82 | a callback of vnp_ parameters plus a hash of their canonical string, arriving in any order, is accepted, with the hash as the token |
| VnPayService.EchoValidatesSorted | OnlineLearningPlatformAss2.Service/Services/VnPayService.cs:73-82 | the same callback arriving in key order is accepted |
| VnPayService.EchoHashFound | OnlineLearningPlatformAss2.Service/Services/VnPayService.cs:60 | in any order of such a callback, FirstOrDefault finds the hash |
| VnPayService.ResponseKeysFresh | OnlineLearningPlatformAss2.Service/Services/VnPayService.cs:59-61 | the keys the gateway adds (transaction number, response code, the two hash fields) are not request keys; every one of these keys passes the vnp_ filter |
| VnPayService.CanonicalFacts | OnlineLearningPlatformAss2.Service/Services/VnPayService.cs:52-54 | the canonical list of a dictionary of non-empty vnp_ values has no empty value and only vnp_ keys |
| VnPayService.CallbackParamsFacts | OnlineLearningPlatformAss2.Service/Services/VnPayService.cs:37-62 | the request plus the gateway's fields carries no hash field; its ids parse to the tick count and the transaction number; its description and response code are the ones sent |
| VnPayService.PaymentRoundTrip | OnlineLearningPlatformAss2.Service/Services/VnPayService.cs:21-83 | the request, the gateway's transaction number and response code, and their hash under the same secret, arriving in any order, are accepted: description "Thanh toan don hang:" + order id, order id the tick count, the transaction number, the hash and the response code |
| VnPayService.PlainEchoRejected | OnlineLearningPlatformAss2.Service/Services/VnPayService.cs:58-59 | echoing only the request's parameters and their hash, in any order, fails with a format error: vnp_TransactionNo is missing |
| VnPayService.PlainEchoSorted | OnlineLearningPlatformAss2.Service/Services/VnPayService.cs:58-59 | the same echo in key order fails with a format error |

## Left out

- **The HMAC.** HMAC-SHA512 (RFC 2104 over SHA-512) and the UTF-8 encoding of key and message inside it are the parameter `mac`, a function from key and message to 64 bytes. So nothing is proved about forging a hash. The lemmas hold for any MAC, and the tampering lemma assumes only that the MAC tells the two signed strings apart.
- **`Utils.GetIpAddress`.** Its socket and DNS lookups and its exception text are left out. `CreatePaymentUrl` takes the IP string as an input.
- **The clock and the request model's number and date formatting.**
  - `DateTime.Now.Ticks` is the input `ticks`, bounded by `DateTime.MaxValue.Ticks`.
  - `model.Amount * 100` (a double rendered in the current culture) and `CreatedDate.ToString("yyyyMMddHHmmss")` are inputs already rendered as text.
  - The `FullName` and `Description` fields are carried but never sent, as in the source.
- **`IConfiguration`.** Each `VnPay:*` value is an `Option<string>` input, with null for a missing key.
- **The query collection.**
  - `IQueryCollection` is a list of key and already-joined value pairs in arrival order. `StringValues` joining and case-insensitive key lookup are not modelled.
  - `FirstOrDefault` compares keys exactly, as the source's `==` does.
- VnPayService.Collect: a real `IQueryCollection` has unique, case-insensitive keys, so the `DuplicateKey` path of `Collect` and `PaymentExecute`, and the lemma `CollectFailurePersists` about it, cannot arise in the running program. The model's query is a plain list and keeps that path.
- VnPayService.IsVnpKey: `key.StartsWith("vnp_")` uses the current culture. The model uses an ordinal prefix test, which agrees for this ASCII prefix except under culture-specific ignorable characters.
- Text.EqualsIgnoreCase: `InvariantCultureIgnoreCase` is modelled as ASCII case folding. Linguistic folding of other characters is left out, and so is the culture comparison's skipping of ignorable code points such as U+0000 and U+00AD.
- VnPayLib.VnPayLibrary.ValidateSignature: because ignorable code points are not skipped, a received hash that is the correct hex digest with, say, U+00AD inserted or appended is accepted by the source but rejected by the model. The model accepts exactly the hashes that are the digest's hex digits in either letter case.
- VnPayService.MismatchYieldsFailed: for the same reason, a hash that differs from the correct digest only by ignorable code points counts as a mismatch here, while the source accepts it.
- Numbers.FormatInt64: `long.ToString()` writes a negative number with the current culture's `NegativeSign`; the model always writes `-`. Tick counts are never negative, but a negative `vnp_TxnRef` or `vnp_TransactionNo` read from a callback is formatted back with that sign.
- Numbers.ToInt64: `Convert.ToInt64` reads the current culture's sign symbols; the model reads the invariant `+` and `-`.
- **Lone surrogates.** A Dafny `string` holds Unicode scalar values, so strings with lone UTF-16 surrogates are not representable.
- VnPayService.CreatePaymentUrl: the twelve straight-line `AddRequestData` calls are modelled as one loop over a table, `RequestFields`, of the same twelve keys and values in the same order. Each iteration is one call with that row's key and value.
- VnPayLib.VnPayLibrary.GetResponseData: `SortedList.TryGetValue`'s binary search is modelled by its result, a dictionary lookup.
- **`SortedList` capacity growth and the null-key exception.** No key in the source is null.
- **`UserService`, `Program.cs` and the DTO classes.** They are not part of this model, apart from the fields of `VnPayRequestModel` and `VnPayResponseModel` that the service reads and writes.
