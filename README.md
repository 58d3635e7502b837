# kohana-imap connection configuration, in Dafny

This project models the connection configuration of the Kohana IMAP wrapper. It covers the
`Imap` class in `classes/imap.php`, which keeps the server path, port, service, connection flags,
options and mailbox of one connection and turns them into the `{host:port/service/flag…}mailbox`
string handed to `imap_open`. It also covers the per-attachment bookkeeping of
`Imap_Attachment` in `classes/imap/attachment.php`. Everything else in those classes is I/O with
the IMAP extension or the file system, or is listed under "## Left out".

Modules:

- `Wrappers` (wrappers.dfy): `Option`, used for PHP's NULL / unset.
- `PhpString` (php_string.dfy): the PHP string built-ins the classes call. These are integer to
  string, the rule that turns a decimal string offset into an integer key, `is_numeric` on
  strings, `strtolower` and `rtrim`.
- `PhpArray` (php_array.dfy): PHP's ordered array as a sequence of (key, value) entries with a
  next-free-index counter. `$a[] = v` is `Append`, `unset($a[k])` is `Unset`, and
  `array_slice($a, 0, $n)` is `SliceFromStart`.
- `ImapClient` (imap_client.dfy): class `Imap`, the `set_flag` transition as a function
  `SetFlagResult`, the server string as `ServerStringOf`, and the lemmas about them.
- `ImapAttachment` (imap_attachment.dfy): class `Attachment`, file-name selection, MIME
  type, the write-once body cache, and the target path of `save_to_directory`.

`Imap::$ssl_enable` is a global static that `set_flag` reads at call time. Here it is a
`sslEnable` parameter (default `true`) of the constructor and of `SetFlag`.

## Where the doc-comments and the code disagree

The model follows the code. `set_flag` stores every flag with `$this->flags[] = …`, so each
entry sits under an integer key. Both removals, `unset($this->flags[$kill])` and
`unset($this->flags[$flag])`, look an entry up by the name string. So:

- The doc-comment of `$exclusive_flags` says each flag removes its partner. This never happens.
  For `validate-cert` and `tls` the kill target is the flag itself, not its partner.
  `ExclusivePartnersCoexist` shows that port 143's `novalidate-cert` survives
  `set_flag('validate-cert')`.
- The doc-comment of `set_flag` says FALSE clears a flag. It does not for ordinary names
  (`ClearingKeepsFlag`).
- A flag named by a decimal integer n, such as `"0"`, becomes the integer key n. Clearing it
  removes the entry stored under index n, which is the (n+1)-th append, if that entry is still
  there (`SetFlagFalsyDecimalName`). On the port-143 flags, `"0"` removes `novalidate-cert`
  (`DecimalFlagClearsFirstEntry`).

`NewConnectionKeepsPartner`, `NewConnectionClearingKeepsFlag` and `NewConnectionDecimalClear` replay
the three cases on a newly constructed port-143 `Imap` object.

## Model

| member | source | states |
|---|---|---|
| PhpString.NatToString | classes/imap.php:240 | The decimal form of a port is made of digits only and has no leading zero, except for 0 itself |
| PhpString.DigitsValueOfNatToString | classes/imap.php:240 | Reading the decimal digits back gives the number they were made from |
| PhpString.IntToString | classes/imap.php:240 | Writes a port in PHP's decimal form. `IntToStringCanonical` and `CanonicalIntegerIsIntToString` state that this form is canonical and reads back as the same integer |
| PhpString.IntToStringCanonical | classes/imap.php:240 | Every integer's string form is a canonical decimal integer whose value is that integer |
| PhpString.CanonicalIntegerIsIntToString | classes/imap.php:189 | Conversely, every canonical decimal string is the string form of its value |
| PhpString.IsNumericString | classes/imap.php:209 | PHP 8's `is_numeric` on strings. `NumericStringHasDigit` states that an accepted string holds a digit, and `IntToStringIsNumeric` that every integer's decimal form is accepted |
| ImapClient.IsNumeric | classes/imap.php:209 | `is_numeric` on the scalar passed to `set_options`: integers pass, strings go through `IsNumericString`, and NULL and booleans fail. `Imap.SetOptions` states the exception for exactly these inputs |
| PhpString.NumericStringHasDigit | classes/imap.php:209 | Everything `is_numeric` accepts holds a digit, so "" and blank strings are refused |
| PhpString.IntToStringIsNumeric | classes/imap.php:209 | Every integer's decimal form passes `is_numeric` |
| PhpString.StrToLower | classes/imap/attachment.php:104 | `strtolower` keeps the length and lower-cases each ASCII letter in place |
| PhpString.StrToLowerNormalises | classes/imap/attachment.php:104 | The result has no upper-case letter, and lower-casing it again changes nothing |
| PhpString.RTrim | classes/imap/attachment.php:167 | `rtrim($path, '/')` is a prefix of the path that does not end in '/', and only '/' characters were dropped |
| PhpString.RTrimUnique | classes/imap/attachment.php:167 | Those three facts determine the result of `rtrim` |
| PhpArray.KeyOf | classes/imap.php:182-189 | The array key a string offset turns into. `KeyOfIntKey` and `KeyOfNonNumeric` state when it is an integer key and when it stays a string key |
| PhpArray.KeyOfIntKey | classes/imap.php:189 | A string offset becomes the integer key i exactly when it is i's decimal form and i fits PHP's 64-bit integer |
| PhpArray.KeyOfNonNumeric | classes/imap.php:183 | A name that does not start with a digit or '-', such as "validate-cert" or "tls", stays a string key |
| PhpArray.Values | classes/imap.php:245 | `foreach` visits the stored values in insertion order, one for each entry |
| PhpArray.Append | classes/imap.php:193-198 | `$a[] = v`. `AppendWellFormed` states that it keeps the keys distinct and integer, and adds v last under the next index |
| PhpArray.Unset | classes/imap.php:182-189 | `unset($a[k])`. `UnsetAbsent`, `UnsetStringKey`, `UnsetPresent` and `UnsetWellFormed` state what it removes and what it keeps |
| PhpArray.AppendWellFormed | classes/imap.php:193 | `$a[] = v` keeps keys distinct and integer, and adds v as the last value |
| PhpArray.UnsetAbsent | classes/imap.php:182-183 | Unsetting a key the array does not hold leaves it unchanged |
| PhpArray.UnsetStringKey | classes/imap.php:182-183 | An array filled only by `[]` appends loses nothing when a string key is unset |
| PhpArray.UnsetPresent | classes/imap.php:189 | Unsetting a present key removes exactly that entry; the others keep their order |
| PhpArray.UnsetWellFormed | classes/imap.php:189 | Unsetting keeps the array well formed and leaves no entry under that key |
| PhpArray.SliceFromStart | classes/imap.php:306 | `array_slice($list, 0, $n)` is a prefix of length min(n, count), or count + n (at least 0) for a negative n |
| ImapClient.KillTarget | classes/imap.php:173-180 | The key `set_flag` unsets before storing the flag. `KillTargetTable` states its value for each flag, and `KillIsNoOp` that it never names a stored entry |
| ImapClient.SearchValue | classes/imap.php:177 | `array_search` gives the key of the first entry holding the flag, and none when no entry holds it |
| ImapClient.KillTargetTable | classes/imap.php:173-180 | The kill target is the flag itself for validate-cert and tls, the partner key for novalidate-cert and notls, and none for any other flag |
| ImapClient.KillIsNoOp | classes/imap.php:182-183 | The kill target is never a key of the integer-keyed flags array |
| ImapClient.SetFlagResult | classes/imap.php:168-200 | The flags after `set_flag`. `SetFlagSslGate`, `SetFlagAppendsBare`, `SetFlagAppendsPair`, `SetFlagFalsyOnlyUnsets`, `SetFlagFalsyDecimalName`, `SetFlagPreservesInvariant` and `SetFlagKeepsEntries` state it branch by branch |
| ImapClient.SetFlagSslGate | classes/imap.php:170-171 | Without SSL support an SSL-dependent flag changes nothing, whatever the value |
| ImapClient.SetFlagAppendsBare | classes/imap.php:196-199 | With NULL or TRUE the bare flag becomes the last entry, under the next integer key; earlier entries are unchanged and in order |
| ImapClient.SetFlagAppendsPair | classes/imap.php:185-194 | With a string other than "" and "0", "flag=value" becomes the last entry, under the next integer key |
| ImapClient.SetFlagFalsyOnlyUnsets | classes/imap.php:185-190 | With FALSE, "" or "0" nothing is appended and only the key named by the flag is unset; a non-decimal name changes nothing |
| ImapClient.SetFlagFalsyDecimalName | classes/imap.php:187-190 | Clearing a decimal-integer flag name removes exactly the entry stored under that index |
| ImapClient.SetFlagPreservesInvariant | classes/imap.php:168-200 | `set_flag` keeps the flags integer keyed with distinct keys below the next index |
| ImapClient.SetFlagKeepsEntries | classes/imap.php:168-200 | For a non-decimal flag name no stored entry is removed: the old entries stay as a prefix and at most one is added |
| ImapClient.ExclusivePartnersCoexist | classes/imap.php:32-38 | Port 143's novalidate-cert survives `set_flag('validate-cert')`, so both flags are sent |
| ImapClient.ClearingKeepsFlag | classes/imap.php:161-163 | `set_flag('novalidate-cert', FALSE)` leaves novalidate-cert in place |
| ImapClient.DecimalFlagClearsFirstEntry | classes/imap.php:187-190 | `set_flag('0', FALSE)` removes the unrelated flag stored at index 0 |
| ImapClient.NewConnectionKeepsPartner | classes/imap.php:114-124 | On a new port-143 connection, `set_flag('validate-cert')` leaves the flags novalidate-cert, validate-cert |
| ImapClient.NewConnectionClearingKeepsFlag | classes/imap.php:185-190 | On a new port-143 connection, `set_flag('novalidate-cert', FALSE)` leaves novalidate-cert in place |
| ImapClient.NewConnectionDecimalClear | classes/imap.php:187-190 | On a new port-143 connection, `set_flag('0', FALSE)` leaves no flags at all |
| ImapClient.Imap.constructor | classes/imap.php:114-132 | Stores the server path, port and service as given. The flags array is exactly one append of novalidate-cert (key 0, next index 1) for port 143, or of ssl for port 993, when SSL is enabled, and empty otherwise |
| ImapClient.Imap.SetMailbox | classes/imap.php:151-153 | Stores the mailbox and changes nothing else |
| ImapClient.Imap.SetFlag | classes/imap.php:168-200 | The new flags are `SetFlagResult` of the old ones, and the flags invariant is kept |
| ImapClient.Imap.SetOptions | classes/imap.php:207-214 | Throws `Imap_Exception` and keeps the options exactly when the input is not numeric, and otherwise stores it as given |
| ImapClient.Imap.GetServerString | classes/imap.php:235-256 | The loop builds exactly `ServerStringOf` of the current state |
| ImapClient.Imap.Search | classes/imap.php:301-320 | FALSE exactly when the search found nothing. Otherwise the messages for the first `limit` UIDs in order when more matched, for all UIDs when they did not, and for all but the last -limit UIDs when limit is negative |
| ImapClient.Imap.GetMessages | classes/imap.php:339-358 | With n = min(limit, count): FALSE exactly when n < 1, else n messages for sequence numbers 1..n in increasing order |
| ImapClient.ServerStringOf | classes/imap.php:235-256 | The string `get_server_string` builds. `Imap.GetServerString` is proved to equal it; `MailboxAfterFirstBrace`, `ServerStringAfterBareFlag` and `ServerStringOfAppend` state how to read the mailbox back and how a flag changes it |
| ImapClient.MailboxAfterFirstBrace | classes/imap.php:235-256 | When no earlier part holds a '}', the text after the first '}' of the server string is the mailbox |
| ImapClient.ServerStringAfterBareFlag | classes/imap.php:245-248 | A bare `set_flag` inserts "/flag" right before the closing '}' and changes nothing else in the server string |
| ImapClient.ServerStringOfAppend | classes/imap.php:245-250 | Adding a flag at the end of the flags adds "/flag" right before the closing '}' |
| ImapAttachment.SelectFilename | classes/imap/attachment.php:88-97 | The "filename" parameter wins over "name". There is no name exactly when neither is present, and a chosen name is one of the parameters |
| ImapAttachment.MimeTypeOf | classes/imap/attachment.php:101-104 | The MIME type of an attachment. `MimeTypeStartsWithType`, `MimeTypeSubtypeAfterSlash` and `MimeSubtypeIsLowerCase` state its parts |
| ImapAttachment.MimeTypeStartsWithType | classes/imap/attachment.php:101 | The MIME type starts with the name of the major type |
| ImapAttachment.MimeTypeSubtypeAfterSlash | classes/imap/attachment.php:101-104 | After the first '/' comes the lower-cased subtype, and there is no '/' when there is no subtype |
| ImapAttachment.MimeSubtypeIsLowerCase | classes/imap/attachment.php:103-104 | The subtype part of the MIME type holds no upper-case ASCII letter |
| ImapAttachment.DirectoryOf | classes/imap/attachment.php:167 | `rtrim($path, '/') . '/'`. `DirectoryOfOneSlash` states that it ends in exactly one slash, keeps the path, and is idempotent |
| ImapAttachment.DirectoryOfOneSlash | classes/imap/attachment.php:167 | The target directory ends in exactly one '/' and is the path with its trailing slashes replaced by one; normalising it again changes nothing |
| ImapAttachment.Attachment.constructor | classes/imap/attachment.php:79-107 | Stores the UID, structure and part id; no data is cached yet; the invariant ties file name, size, encoding and MIME type to the structure |
| ImapAttachment.Attachment.GetData | classes/imap/attachment.php:115-128 | On the first call it fetches the part when a part id is set (else the whole body) once, decodes it and caches it. Every later call returns the cache and fetches nothing |
| ImapAttachment.Attachment.GetFileName | classes/imap/attachment.php:135-138 | FALSE exactly when the structure has neither a "filename" nor a "name" parameter |
| ImapAttachment.Attachment.GetMimeType | classes/imap/attachment.php:145-148 | The type name of the structure's type id, then "/" and the lower-cased subtype when one is present |
| ImapAttachment.Attachment.GetSize | classes/imap/attachment.php:155-158 | The structure's byte count, also after `get_data` |
| ImapAttachment.Attachment.SaveToDirectory | classes/imap/attachment.php:165-173 | FALSE when the normalised directory does not exist, else the result of saving to that directory followed by the file name (FALSE adds nothing) |
| ImapAttachment.GetDataTwice | classes/imap/attachment.php:115-128 | Two calls return the same body even if the server would answer differently the second time, and the body is fetched once |

## Left out

- `set_imap_stream`, `get_imap_stream`, `num_messages`, `expunge` and the `imap_open`, `imap_reopen`, `imap_search`, `imap_num_msg` and `imap_uid` calls are network I/O. `Search` takes the result of `imap_search` as an input. `GetMessages` takes the message count and the UID of each sequence number as inputs.
- `get_recent_messages` (classes/imap.php:328-331) is `search('Recent', $limit)`. The search criteria matter only to `imap_search`, so `Search` covers it.
- `set_authentication` and the username and password fields are not used by anything modelled here. They only reach `imap_open`.
- `ImapClient.Imap.SetMailbox` models the field update only. The reopen of an open stream (classes/imap.php:154-157) is I/O.
- `Imap_Message` is not part of this model. A message is represented by its UID, and its `decode`, `type_id_to_string` and `get_parameters_from_structure` are inputs: arrow parameters, or the `parameters` field of `Structure`.
- ImapAttachment.Attachment.GetData: `decode` is assumed never to return NULL. In PHP a NULL decode result leaves `isset($this->data)` false, so the next call would fetch again (classes/imap/attachment.php:117-124). The fetches-at-most-once contract does not cover that case.
- The attachment's `imap_stream`, `imap_fetchbody` and `imap_body` are I/O. They are the `fetchPart`/`fetchBody` parameters of `GetData`.
- `save_as` and `is_dir` are file-system I/O. They are parameters of `SaveToDirectory`.
- ImapAttachment.Attachment.SaveToDirectory: `save_as` calls `get_data` before writing (classes/imap/attachment.php:196). In PHP a save that reaches the write therefore fetches the body and fills the cache, and a later `get_data` fetches nothing. In the model `SaveToDirectory` reads the object and never fills the cache, so after save_to_directory followed by get_data the model fetches at the second call, not the first.
- classes/imap/exception.php is an empty exception subclass. Throwing it is the `ImapException` outcome.
- The commented-out SSL-capability probe (classes/imap.php:375) is left out; `sslEnable` is a parameter instead.
- ImapClient.Imap.SetOptions: floating-point bitmasks are not modelled. `is_numeric` on strings follows PHP 8 (leading and trailing white space allowed, no hexadecimal).
- ImapClient.Imap.GetMessages: the limit is an integer or NULL, so `is_numeric($limit)` always holds. Numeric-string and float limits are not modelled.
- ImapClient.Imap.Search: the limit is an integer or NULL. Numeric-string limits are not modelled.
- ImapClient.SetFlagResult: the `$value` of `set_flag` is NULL, a boolean or a string, as documented. Integer and float values and their loose comparison with FALSE are not modelled.
- PhpArray.Append: PHP refuses `$a[] = v` once the next index passes PHP_INT_MAX. The counter here is unbounded.
- ImapClient.Imap.constructor: the port is an integer or NULL. A port passed as a numeric string, which PHP's loose `switch` would also match, is not modelled.
- PhpString.StrToLower lower-cases ASCII letters only, which is PHP's locale-independent rule.
- `$structure->bytes` and `->encoding` are taken as present. A missing property would read as NULL in PHP.
