# ZTE F670L router client: a verified model

This project models a console program that talks to a ZTE F670L home router: it logs in, lists the
devices the router's DHCP server knows, and adds or deletes rows of the router's MAC filter. The
router is reached only through HTML pages and form posts, so the program is a session client built
from parsers and printers. The model covers both: the client class whose fields change under every
response, and each parser and printer as an algorithm with its meaning.

- **Session.** `RouterClient.ZteF670LRouterClient` has the fields of the original class and one method
  for each of its operations. The transport (`Http.HttpClient`) may answer anything at all. A ghost log
  of events and a ghost log of the messages on the wire run alongside; `Valid()` says that the
  operations so far form a run, that the fields are the replay of that run's events, and that the wire
  has carried exactly its messages. `Protocol` says what one call may send, decide and answer;
  `Session`, `Logins` and `Runs` prove what follows for every run against every server, and `Answers` says
  of each operation what it sends and what it answers, case by case, in terms of the messages.
- **Regular expressions.** `Regex` is a backtracking matcher for the constructs the patterns use
  (greedy and lazy stars, classes, literals with or without case, word boundaries, captures, back
  references, the end of the text) beside a declarative meaning: which texts a pattern allows, and which of them it prefers.
  Backtracking is proved to find exactly that, and a scan to report exactly the leftmost,
  non-overlapping matches. Every pattern of the client is a value of that datatype, so the meaning of a
  pattern is a theorem about the pattern itself.
- **Reading pages.** `FormPatterns` has the three passes over a page. `FormMeaning` (tags, attributes,
  calls), `ScriptPage` (scripts) and `ScriptTokens` (what a script gives) say what each pattern means on
  every text, and `PageFields` puts them together for every page. `Variables` says which variable a
  token comes from. `Pages`, `FormPage`, `HiddenPage`, `ScriptPage`, `PlainPages`, `TokenScripts`,
  `StyledScripts`, `TokenPages` and `LoginForms` render fields and tokens as pages and read them back.
- **Writing forms.** `UrlForm` (fields to body, with the decoder a server applies), `Acl` (the fields of a
  block or an unblock), `LoginTokens` and `LoginPage` (the tokens of the login page and the login body).
- **Devices.** `DhcpRecords`, `Escapes`, `EscapeMeaning`, `DeviceTable`, `DevicePage`, `DeviceService`.
- **Cookies.** `Cookies` reads Set-Cookie headers and writes the Cookie header, and reads it back;
  `CookieLines` says on the text of the headers what the jar then holds; `CookieRules` compares the reading with that of sections 5.2 and 5.3 of RFC 6265.
- **Status page.** `StatusPage`.

Percent-encoding follows sections 2.1 and 2.3 of RFC 3986, form bodies section 17.13.4.1 of HTML 4.01,
and the Cookie header section 4.2.1 of RFC 6265. Bytes are the values 0 to 255 in the C locale.

Some facts of the code that a caller might not expect, each with its proof:

- `login` can report success and leave the client logged out, because the page it was redirected to may
  itself look expired. `Logins.LoginSuccessMeaning` says exactly when, `Logins.LoginSuccessLoggedOut` builds
  such a login from any state. The comment above `login` (`src/router/ZteF670LRouterClient.cpp:299-301`)
  says that success stores the session's cookies; in this case the jar has been emptied.
- `setField` overwrites the first field of a name only. `UrlForm.StaleDuplicates` says exactly when that
  leaves another value behind; `UrlForm.SecondGoesStale` is the smallest list on which it does.
- A device index above 2147483647 makes `std::stoi` throw out of `connectedDevices`. The model returns
  `IndexOutOfRange`, and `DeviceTable.DevicesMeaning` says exactly when; on a page that is one record
  with the index 2147483648 it does (`DevicePage.FirstIndexTooLarge`).
- `std::stoi` ignores what follows the digits, so `&#65x;` is the letter A (`Escapes.SixtyFiveIsA`, from
  `Escapes.EntityIgnoresRest`).
- `sessionToken_` never holds anything (`Session.TokenStaysEmpty`).
- The cookies of a response that ends the session are merged and then dropped with the jar
  (`Session.JarMeaning`: such a response is itself a reset).
- Only the first element that a script names `_SESSION_TOKEN` is considered (`ScriptTokens.ScriptTokenMeaning`).
- `ENGINEERING.md:93` says that similarly named variables are kept apart. The code compares words, not
  names. A word boundary stands after a `$` and after a dot, so a token is given when `$x` takes the name
  and `x` the value (`TokenScripts.DollarIsIgnored`), when `x` takes the name and `a$x` the value
  (`TokenScripts.LongerNameIsIgnored`), and when the property `x` of one object takes the name and that
  of another the value (`TokenScripts.ObjectIsIgnored`). `Variables.TokenFromOneVariable` says exactly
  when a token comes from one variable: the name bytes before the word that first takes the name, and
  before some word that takes the value, are the same, and neither name is a property.
- The captured word is spliced into a pattern unescaped, where a `$` asserts the end of the text
  (`Regex.Spliced`). Such a pattern matches nowhere (`Regex.SplicedDollar`), so a word with a `$` in it,
  such as `a$x` at the start of a statement, never gives a token (`Variables.DollarGivesNone`).
- `blockDevice` and `unblockDevice` look at the first `_SESSION_TOKEN` field only: they post exactly when
  it is not empty and, for unblocking, the row is there (`Runs.PostsMeaning`). An empty static field
  therefore hides a token that a script delivers: the page is refused as having none
  (`TokenPages.EmptyFieldShadows`, `Runs.ShadowedTokenRefused`).
- Cookie text is not trimmed and `Max-Age` is ignored, unlike sections 5.2 and 5.3 of RFC 6265. A blank before the
  `;` stays in the value (`CookieRules.BlankIsKept`), and a cookie whose age is not positive is stored
  instead of removed (`CookieRules.AgeIsIgnored`). `CookieRules.LineIsStandard` says exactly for which
  lines the client does what the standard does.

## Model

| member | source | states |
|---|---|---|
| `Bytes.Find` | src/router/ZteF670LRouterClient.cpp:217-221 | searching reports the first occurrence at or after a position, and nothing only when there is none |
| `Bytes.CastToByte` | src/router/ZteF670LRouterClient.cpp:413 | narrowing an int to char keeps its value modulo 256, for negative codes too |
| `Bytes.LowerMeaning` | src/router/ZteF670LRouterClient.cpp:187-196 | two texts have one lower-case form if and only if they are as long and at every position hold the same byte or the two letters of one pair, 32 codes apart |
| `Bytes.LowerContains` | src/services/DeviceService.cpp:11-20 | searching lower-case text in lower-case text finds something if and only if the pattern stands somewhere in the text up to such letters |
| `Numbers.StoiReads` | src/router/ZteF670LRouterClient.cpp:412 | whatever text reads as white space, at most one sign, digits and a remainder, stoi gives the signed value of the digits, or is out of the range of int |
| `Numbers.StoiRejects` | src/router/ZteF670LRouterClient.cpp:411-416 | stoi rejects a text if and only if it does not read so |
| `Numbers.StoiDigits` | src/router/ZteF670LRouterClient.cpp:494 | on a numeral of digits only, stoi gives its value exactly up to 2147483647 and throws out of range above |
| `Numbers.StoiDecimal` | src/router/ZteF670LRouterClient.cpp:341 | stoi reads back what to_string prints |
| `Regex.RunMeaning` | src/router/ZteF670LRouterClient.cpp:107-114 | backtracking finds exactly what a pattern means: of all ways to match at a position, the one in which each star in turn reaches as far as it can or, if lazy, as near as it can, with its end and captures |
| `Regex.RunSound` | src/router/ZteF670LRouterClient.cpp:107-114 | corollary: whatever backtracking finds is a way to match |
| `Regex.RunComplete` | src/router/ZteF670LRouterClient.cpp:107-114 | backtracking finds a match wherever some way of matching exists |
| `Regex.FindAllMeaning` | src/router/ZteF670LRouterClient.cpp:118-120 | a list is what iterating a pattern over a page gives if and only if it is the leftmost, non-overlapping matches in order, each with the end and the captures the pattern means |
| `Regex.SplicedDollar` | src/router/ZteF670LRouterClient.cpp:150-152 | a captured word with a `$` in it, spliced into a pattern that takes at least one more byte, makes a pattern that matches nowhere |
| `Regex.SplicedLiteral` | src/router/ZteF670LRouterClient.cpp:150-152 | without a `$` the spliced word matches as the literal text it is |
| `Regex.LiteralMeaning` | src/router/ZteF670LRouterClient.cpp:107-114 | a literal matches where its text stands; with the flag, where its text stands up to case |
| `Regex.ClassMeaning` | src/router/ZteF670LRouterClient.cpp:107-139 | each character class is the set of these byte codes |
| `UrlForm.UrlEncode` | src/router/ZteF670LRouterClient.cpp:71-81 | the append loop computes the percent-encoding of its input |
| `UrlForm.DecodedEncoded` | src/router/ZteF670LRouterClient.cpp:71-81 | decoding an encoded byte string gives it back, for all bytes |
| `UrlForm.EncodedAlphabet` | src/router/ZteF670LRouterClient.cpp:74-78 | encoded text has unreserved characters and percent signs only, so no separator of a form body |
| `UrlForm.EncodedByte` | src/router/ZteF670LRouterClient.cpp:71-81 | one byte encodes as itself if it is a letter, a digit or one of `-_.~`, and otherwise as a percent sign and two digits of the table, high before low |
| `UrlForm.EncodedByteByByte` | src/router/ZteF670LRouterClient.cpp:71-81 | encoding goes byte by byte |
| `UrlForm.TwoFieldBody` | src/router/ZteF670LRouterClient.cpp:178-185 | a body of two fields reads name, `=`, value, `&`, name, `=`, value |
| `UrlForm.ParseBody` | src/router/ZteF670LRouterClient.cpp:178-185 | a server that splits a built body at `&`, then at the first `=`, then decodes, reads exactly the fields: names, values, order, duplicates, empty ones, and none at all |
| `UrlForm.BodyInjective` | src/router/ZteF670LRouterClient.cpp:178-185 | two field lists with the same body are equal |
| `UrlForm.FormFields.BuildFormBody` | src/router/ZteF670LRouterClient.cpp:178-185 | the loop builds that body, and the body decodes to the fields |
| `UrlForm.FormFields.SetField` | src/router/ZteF670LRouterClient.cpp:161-169 | the list changes in place to the specified update of the old list |
| `UrlForm.FormFields.GetField` | src/router/ZteF670LRouterClient.cpp:171-176 | the loop returns the first-occurrence lookup and changes nothing |
| `UrlForm.LookupIsFirst` | src/router/ZteF670LRouterClient.cpp:171-176 | lookup gives the value of the first field of the name, which exists whenever some field has the name, and otherwise nothing |
| `UrlForm.UpdatedShape` | src/router/ZteF670LRouterClient.cpp:161-169 | an update rewrites one position, the first of the name, or appends one field; the other fields keep value and order |
| `UrlForm.LookupUpdated` | src/router/ZteF670LRouterClient.cpp:161-176 | reading back a write gives the written value and every other name is undisturbed, as in a finite map |
| `UrlForm.LookupUpdatedAll` | src/router/ZteF670LRouterClient.cpp:541-550 | after any distinct writes each written name reads its write and every other name its old value |
| `UrlForm.UpdatedAllMeaning` | src/router/ZteF670LRouterClient.cpp:541-550 | distinct writes override the first occurrence of each name in place, leave every other position alone, and append the missing names in order |
| `UrlForm.UpdatedAllFresh` | src/router/ZteF670LRouterClient.cpp:602-614 | distinct writes to a cleared list are the list |
| `UrlForm.StaleDuplicates` | src/router/ZteF670LRouterClient.cpp:161-169 | after a write all fields of the name carry the new value if and only if no later duplicate held another one |
| `UrlForm.SecondGoesStale` | src/router/ZteF670LRouterClient.cpp:161-169 | after a write to the first of two fields of a name the second still holds its old, different value |
| `Escapes.StoiHexReads` | src/router/ZteF670LRouterClient.cpp:468 | whatever text reads as white space, at most one sign, perhaps `0x` before a digit, hexadecimal digits and a remainder, stoi in base sixteen gives the signed value of the digits, or is out of the range of int |
| `Escapes.StoiHexRejects` | src/router/ZteF670LRouterClient.cpp:466-472 | stoi in base sixteen rejects a text if and only if it does not read so |
| `UrlForm.HexValueMeaning` | src/router/ZteF670LRouterClient.cpp:468 | a digit of base sixteen, of either case, has the value of its place in `0123456789ABCDEF` |
| `Escapes.UnescapeZteStr` | src/router/ZteF670LRouterClient.cpp:462-478 | the index loop terminates on every input and computes the specified unescaping, malformed escapes included |
| `Escapes.ZteRoundTrip` | src/router/ZteF670LRouterClient.cpp:462-478 | unescaping undoes escaping every non-alphanumeric byte, for all byte strings |
| `Escapes.ZteIdentity` | src/router/ZteF670LRouterClient.cpp:462-478 | text without a backslash is unchanged |
| `Escapes.ZteNeverLengthens` | src/router/ZteF670LRouterClient.cpp:462-478 | unescaping never lengthens text |
| `Escapes.UnescapeHtmlEntities` | src/router/ZteF670LRouterClient.cpp:405-422 | the index loop terminates on every input and computes the specified unescaping, unreadable entities included |
| `Escapes.HtmlRoundTrip` | src/router/ZteF670LRouterClient.cpp:405-422 | unescaping undoes writing every byte as a decimal entity |
| `Escapes.EntityIgnoresRest` | src/router/ZteF670LRouterClient.cpp:407-416 | a byte that is no digit, between the digits of an entity and its semicolon, is ignored |
| `Escapes.SixtyFiveIsA` | src/router/ZteF670LRouterClient.cpp:407-416 | corollary: `&#65x;` unescapes to `A` |
| `Escapes.HtmlIdentity` | src/router/ZteF670LRouterClient.cpp:405-422 | text without an ampersand is unchanged |
| `Escapes.HtmlNeverLengthens` | src/router/ZteF670LRouterClient.cpp:405-422 | unescaping never lengthens text |
| `EscapeMeaning.EntityReads` | src/router/ZteF670LRouterClient.cpp:407-416 | an entity, that is `&#`, at most four bytes that read as a numeral, and a semicolon, becomes the byte of its value modulo 256, and what follows is unescaped by itself |
| `EscapeMeaning.NoEntityKeeps` | src/router/ZteF670LRouterClient.cpp:407-420 | a byte at which no entity starts is kept, and what follows is unescaped by itself |
| `EscapeMeaning.EscapeReads` | src/router/ZteF670LRouterClient.cpp:464-469 | `\x` and two bytes that read as a numeral in base sixteen become the byte of its value modulo 256 |
| `EscapeMeaning.NoEscapeKeeps` | src/router/ZteF670LRouterClient.cpp:464-476 | a byte at which no such escape starts is kept |
| `Pages.ScanPage` | src/router/ZteF670LRouterClient.cpp:118-134 | a scan of a page made of pieces the pattern reads, with any text around them in which it matches nowhere, gives one match for each piece, in order |
| `DhcpRecords.RecordPatternMeaning` | src/router/ZteF670LRouterClient.cpp:486 | the record pattern matches at a position if and only if some well-formed record is printed there, and then captures that record |
| `DhcpRecords.ScanPrinted` | src/router/ZteF670LRouterClient.cpp:486-495 | scanning printed records gives them back in order, amid any text in which no further record stands |
| `DhcpRecords.ScannedIsRaw` | src/router/ZteF670LRouterClient.cpp:486-494 | on any page every scanned record is well formed, so its index is a numeral |
| `DhcpRecords.RecordsScanned` | src/router/ZteF670LRouterClient.cpp:486-495 | the scan of any page gives its records: the first well-formed record that stands, then those from its end on |
| `DhcpRecords.RecordsExist` | src/router/ZteF670LRouterClient.cpp:486-495 | every page has such a list of records |
| `DhcpRecords.RecordsUnique` | src/router/ZteF670LRouterClient.cpp:486-495 | a page has one list of records, at one list of positions |
| `DeviceTable.RowsMeaning` | src/router/ZteF670LRouterClient.cpp:485-505 | each accumulated row holds, for each attribute, the last value given for that key and index; unknown keys create nothing |
| `DeviceTable.ListingIsTable` | src/router/ZteF670LRouterClient.cpp:507-513 | the list has exactly the indices with both addresses, strictly increasing, each with the device its records describe |
| `DeviceTable.TableUnique` | src/router/ZteF670LRouterClient.cpp:507-513 | that description determines the list |
| `DeviceTable.LastValueMeaning` | src/router/ZteF670LRouterClient.cpp:491-505 | the value kept for a key and an index is that of the last record with both, and there is none when no record has both |
| `DeviceTable.TableIsDescribed` | src/router/ZteF670LRouterClient.cpp:498-513 | record by record: listed by increasing index are exactly the devices whose last MACAddr and last IPAddr are there and not empty, with the last HostName, `Unknown` for an empty one and empty without one, and not blocked |
| `DeviceTable.OrderIrrelevant` | src/router/ZteF670LRouterClient.cpp:491-505 | when no attribute is set twice, permuting the records changes no row |
| `DeviceTable.DevicesMeaning` | src/router/ZteF670LRouterClient.cpp:485-513 | on every page the result is the table of the page's records, and lists what they describe record by record, unless the index of one exceeds 2147483647, which is the one way to fail |
| `DeviceTable.AccumulateRows` | src/router/ZteF670LRouterClient.cpp:491-505 | the loop over the matches builds the rows of their records, or stops when stoi throws |
| `DeviceTable.ListRows` | src/router/ZteF670LRouterClient.cpp:507-513 | iterating the map in key order builds the list |
| `DeviceTable.ParseDevices` | src/router/ZteF670LRouterClient.cpp:485-513 | the whole of it computes the specified list for any page |
| `DevicePage.DevicePageRoundTrip` | src/router/ZteF670LRouterClient.cpp:462-513 | printing the records of any table with distinct indices and non-empty addresses in any order, any bytes in its values and any text around the records in which no further one stands, and reading the page gives exactly its devices by increasing index, an empty host name as "Unknown" |
| `DevicePage.LargeIndexThrows` | src/router/ZteF670LRouterClient.cpp:494 | a page that is one record with an index above 2147483647 makes stoi throw |
| `DevicePage.FirstIndexTooLarge` | src/router/ZteF670LRouterClient.cpp:494 | corollary: 2147483648 does |
| `FormPatterns.ExtractFormFields` | src/router/ZteF670LRouterClient.cpp:116-159 | the three passes append to one list exactly the fields that the patterns give |
| `FormPatterns.AppendInputs` | src/router/ZteF670LRouterClient.cpp:118-126 | the loop over tags appends one field for each tag with a name and leaves what was there |
| `FormPatterns.AppendScriptToken` | src/router/ZteF670LRouterClient.cpp:140-157 | the loop over scripts stops at the first that gives a token and appends it |
| `FormMeaning.AttributeMeaning` | src/router/ZteF670LRouterClient.cpp:107-114 | the value of an attribute is the shortest text between two quotes of one kind after the first place where the name, an equals sign and a quote stand and lead to one; it is empty exactly when that text is, or there is no such place |
| `FormMeaning.TagMeaning` | src/router/ZteF670LRouterClient.cpp:118-121 | the tag pattern matches if and only if `<input`, a word boundary and text free of `>` stand before a `>`, and takes them whole |
| `FormMeaning.CallMeaning` | src/router/ZteF670LRouterClient.cpp:129-130 | the call pattern matches if and only if a call stands there, with the shortest first argument that leads to a second one and the shortest second one that leads to the closing parenthesis |
| `FormMeaning.CallIsRead` | src/router/ZteF670LRouterClient.cpp:131-134 | a call is taken up to its parenthesis and gives the field of its two arguments |
| `ScriptPage.ScriptPatternMeaning` | src/router/ZteF670LRouterClient.cpp:136 | the script pattern matches if and only if a script stands there; it captures the text from the end of the opening tag to the first closing tag, with no closing tag in it |
| `ScriptPage.ScriptsUnique` | src/router/ZteF670LRouterClient.cpp:136-142 | a page has one list of scripts: leftmost, non-overlapping |
| `ScriptPage.ThirdPassMeaning` | src/router/ZteF670LRouterClient.cpp:136-157 | on any page the third pass gives the token of the first of the page's scripts that gives one by itself; facts of different scripts never combine |
| `PageFields.TagFieldsMeaning` | src/router/ZteF670LRouterClient.cpp:120-126 | a tag says nothing without a non-empty name, and otherwise one field of its first name and its first value or an empty one |
| `PageFields.FormFieldsMeaning` | src/router/ZteF670LRouterClient.cpp:116-159 | on any page the form fields are what its tags say in order, then the arguments of its calls in order, then the token of the first script that gives one |
| `PageFields.PageHasParts` | src/router/ZteF670LRouterClient.cpp:116-159 | every page has tags, calls and scripts in that sense |
| `FormPage.InputsOnPage` | src/router/ZteF670LRouterClient.cpp:107-126 | the first pass over any page of rendered tags, amid any text in which no further input tag stands, gives exactly the fields |
| `HiddenPage.CallsOnPage` | src/router/ZteF670LRouterClient.cpp:128-134 | the second pass over any page of rendered calls, amid any text in which no further call stands, gives exactly the fields, with quotes of either kind |
| `ScriptPage.ScriptsOnPage` | src/router/ZteF670LRouterClient.cpp:136-142 | on any page of rendered scripts, amid any text in which no further script stands, the third pass looks at exactly their bodies |
| `ScriptPage.MixedPage` | src/router/ZteF670LRouterClient.cpp:116-159 | a page rendered from tags, calls and scripts gives the fields of its tags, those of its calls and the token of its first script that gives one |
| `ScriptPage.PageRoundTrip` | src/router/ZteF670LRouterClient.cpp:107-159 | corollary: without calls and scripts, exactly the rendered list: names, values, order, duplicates |
| `PlainPages.PlainRoundTrip` | src/router/ZteF670LRouterClient.cpp:107-159 | any rendered tags, with values and text around them that hold neither `<` nor `(`, read back exactly: nothing else is found on such a page |
| `PlainPages.AdjacentTags` | src/router/ZteF670LRouterClient.cpp:107-159 | corollary: so do the tags of any list of such fields, one after the other |
| `ScriptTokens.DeclarationMeaning` | src/router/ZteF670LRouterClient.cpp:137 | the declaration pattern matches if and only if a session_token literal is declared there, and captures it |
| `ScriptTokens.NameMeaning` | src/router/ZteF670LRouterClient.cpp:138-139 | the name pattern matches if and only if an identifier takes the field name there, and captures that identifier |
| `ScriptTokens.ValueMeaning` | src/router/ZteF670LRouterClient.cpp:150-152 | the pattern that a word is spliced into matches if and only if the word has no `$` and that word takes the token there |
| `ScriptTokens.TokenUnique` | src/router/ZteF670LRouterClient.cpp:137 | at most one literal is declared at a position |
| `ScriptTokens.IdentifierUnique` | src/router/ZteF670LRouterClient.cpp:138-139 | at most one identifier takes the name at a position |
| `ScriptTokens.ScriptTokenMeaning` | src/router/ZteF670LRouterClient.cpp:140-155 | a script gives a token if and only if its first declaration holds that literal and the first identifier to take the name, free of `$`, takes the value in the same script |
| `ScriptTokens.TokenOfMeaning` | src/router/ZteF670LRouterClient.cpp:140-157 | the fields taken from a list of scripts are exactly the token of the first one that gives a token by itself, or none when none does |
| `Variables.TokenFromOneVariable` | src/router/ZteF670LRouterClient.cpp:138-155 | a token that a script gives comes from one variable if and only if the name bytes before the word that first takes the name are those before some word that takes the value, and neither name is a property |
| `Variables.DollarGivesNone` | src/router/ZteF670LRouterClient.cpp:150-152 | a script whose first captured word has a `$` in it gives no token, because the pattern spliced from it matches nowhere |
| `StyledScripts.StyledGives` | src/router/ZteF670LRouterClient.cpp:137-155 | for every token free of quotes, every identifier without `$`, any white space between the words, quotes of either kind, any text before the second call and after it: the script gives the token, and it comes from one variable |
| `TokenScripts.SameVariableGives` | src/router/ZteF670LRouterClient.cpp:137-155 | for every token free of quotes, dots and `x`, a script that sets name and value through `x` gives it, from one variable |
| `TokenScripts.DollarIsIgnored` | src/router/ZteF670LRouterClient.cpp:138-155 | `$x` takes the name and `x` the value, and the token is given |
| `TokenScripts.LongerNameIsIgnored` | src/router/ZteF670LRouterClient.cpp:138-155 | `x` takes the name and `a$x` the value, and the token is given |
| `TokenScripts.ObjectIsIgnored` | src/router/ZteF670LRouterClient.cpp:138-155 | `o.x` takes the name and `p.x` the value, and the token is given |
| `TokenPages.TokenByScript` | src/router/ZteF670LRouterClient.cpp:136-157 | for every token free of quotes, dots and the bytes `x`, `<`, `h`, `H` and `F` (a numeral, for one) there is a page that delivers it only by script, and reading that page gives exactly the token field |
| `TokenPages.EmptyFieldShadows` | src/router/ZteF670LRouterClient.cpp:118-157 | with an empty static field of the token's name before that script, the page gives the empty field first and the token second |
| `Acl.AsciiEqualIgnoreCase` | src/router/ZteF670LRouterClient.cpp:187-196 | the comparison holds if and only if the lengths agree and at every position the bytes are equal or the two letters of one pair, 32 codes apart |
| `Acl.FindAclIndexByMac` | src/router/ZteF670LRouterClient.cpp:198-211 | the nested loops compute the specified index |
| `Acl.AclIndexMeaning` | src/router/ZteF670LRouterClient.cpp:198-211 | the index is empty if and only if no row holds the address, and otherwise is the suffix of the first that does (`RowMeaning` says on bytes what such a row is) |
| `Acl.RowMeaning` | src/router/ZteF670LRouterClient.cpp:199-208 | a row of the address is a field whose name is MACAddress and then at least one digit and nothing else, and whose value is the address up to letters of one pair |
| `Acl.AclIndexIgnoresCase` | src/router/ZteF670LRouterClient.cpp:187-211 | queries that differ only in the case of letters, byte by byte, give the same index |
| `Acl.OverrideForBlock` | src/router/ZteF670LRouterClient.cpp:541-550 | the ten setField calls leave the specified overrides of the old list |
| `Acl.BlockUpdatesDistinct` | src/router/ZteF670LRouterClient.cpp:541-550 | corollary: the ten names are distinct |
| `Acl.BlockKeepsToken` | src/router/ZteF670LRouterClient.cpp:541-550 | corollary: none of them is _SESSION_TOKEN |
| `Acl.SetForUnblock` | src/router/ZteF670LRouterClient.cpp:602-614 | clearing and the eleven setField calls leave exactly the eleven specified fields |
| `Acl.UnblockUpdatesDistinct` | src/router/ZteF670LRouterClient.cpp:602-614 | their names are distinct for every non-empty index |
| `Cookies.NoOverlap` | src/network/WinHttpClient.cpp:188-191 | the prefix never overlaps itself, so advancing by its length skips no occurrence |
| `Cookies.ParseCookies` | src/network/WinHttpClient.cpp:186-202 | the loop terminates and equals the fold over every occurrence of the prefix, later cookies winning |
| `CookieLines.CookieAtMeaning` | src/network/WinHttpClient.cpp:188-199 | what is read behind a prefix is a cookie if and only if its name and value stand there: no `=` in the name, no `;` in either, ended by a `;`, the end of the line or of the text, and no end of line before |
| `CookieLines.CookiesFromMeaning` | src/network/WinHttpClient.cpp:186-202 | the jar holds a name with a value if and only if the last `Set-Cookie: ` line that gives the name a value gives that one, or none does and the jar held it before |
| `Cookies.ParsedIsSafe` | src/network/WinHttpClient.cpp:192-199 | parsed names hold neither `=` nor `;`, parsed values no `;` |
| `Cookies.MergedIsSafe` | src/router/ZteF670LRouterClient.cpp:236-240 | merging keeps a jar so |
| `Cookies.BuildCookieHeader` | src/network/WinHttpClient.cpp:177-184 | the header lists the jar in increasing order of name, and a safe jar's header reads back as the jar |
| `Cookies.CookieRoundTrip` | src/network/WinHttpClient.cpp:177-202 | splitting the header at `; ` and then at the first `=` gives the jar back |
| `Cookies.TwoCookieHeader` | src/network/WinHttpClient.cpp:177-184 | a header of two cookies reads name, `=`, value, `; `, name, `=`, value |
| `Cookies.LexMeaning` | src/network/WinHttpClient.cpp:177-184 | names are ordered as std::map orders them: equal up to a position where the first ends or has the smaller byte |
| `CookieRules.LineIsStandard` | src/network/WinHttpClient.cpp:192-199 | the client does with a line what sections 5.2 and 5.3 of RFC 6265 say, whatever the jar, if and only if the line holds no pair, or one with a name, no blanks around name or value, and no Max-Age that is not positive |
| `CookieRules.HeadersAreStandard` | src/network/WinHttpClient.cpp:186-202 | so it reads whole headers as the standard does when every cookie line is such a line |
| `CookieRules.BlankIsKept` | src/network/WinHttpClient.cpp:192-199 | for every plain name and value, a blank before the `;` stays in the value, and the standard drops it |
| `CookieRules.AgeIsIgnored` | src/network/WinHttpClient.cpp:192-199 | for every plain name and value, a cookie whose Max-Age is not positive is stored, and the standard removes it |
| `CookieRules.ZeroAge` | src/network/WinHttpClient.cpp:192-199 | `Max-Age=0` is such an age |
| `Cookies.HeaderUnique` | src/network/WinHttpClient.cpp:177-184 | a jar has only one header text |
| `Http.HttpClient.Send` | include/network/IHttpClient.hpp:12 | any response at all may come back; request and response are recorded |
| `Session.ResponseMeaning` | src/router/ZteF670LRouterClient.cpp:236-253 | on status, Location and body: a response clears all three fields if and only if the client was logged in and the status is 401, the Location holds `login` somewhere, or the body holds `Frm_Logintoken` somewhere; otherwise its cookies are merged and nothing else changes |
| `Session.ExpiredMeaning` | src/router/ZteF670LRouterClient.cpp:244-247 | the test of the code is that condition |
| `Session.JarMeaning` | src/router/ZteF670LRouterClient.cpp:236-253 | the jar holds a cookie if and only if some response set it, with no reset since (that response included) and no later response setting the name; a reset is a logout, or a response with that condition while a login was alive |
| `Session.JarIsSafe` | src/router/ZteF670LRouterClient.cpp:236-253 | a jar fed with safe cookies stays safe through every history |
| `Session.TokenStaysEmpty` | src/router/ZteF670LRouterClient.cpp:249 | sessionToken_ is empty after every history |
| `LoginPage.BuildLoginBody` | src/router/ZteF670LRouterClient.cpp:347-356 | the concatenation computes the specified text |
| `LoginPage.LoginBodyMeaning` | src/router/ZteF670LRouterClient.cpp:347-356 | for any bytes in any part the hand-made login body decodes to action, Username, Password, UserRandomNum and then whichever tokens are non-empty |
| `LoginPage.NonceMeaning` | src/router/ZteF670LRouterClient.cpp:337-341 | the nonces are the numbers whose decimal numeral has eight digits |
| `LoginPage.NonceAndHashPlain` | src/router/ZteF670LRouterClient.cpp:337-350 | the nonce and a lowercase hexadecimal hash pass through the encoding unchanged |
| `LoginTokens.PageTokenMeaning` | src/router/ZteF670LRouterClient.cpp:84-103 | a token of the login page is the value of the first input whose name comes first, without one of the first input whose value comes first, and if that is empty the argument of the first call; in a tag the last name with a value after it counts, and the last value |
| `LoginForms.LoginFormRoundTrip` | src/router/ZteF670LRouterClient.cpp:84-103 | on a page of rendered tags with letters and digits as values, amid plain text, a token read is the value of the first field of its name in any case, or nothing without one |
| `LoginForms.TwoTokens` | src/router/ZteF670LRouterClient.cpp:320-335 | corollary: a rendered login page gives its two tokens |
| `StatusPage.ExtractBetweenMeaning` | src/router/ZteF670LRouterClient.cpp:214-223 | the extracted text is the one between the first opening marker and the first closing marker after it; it is empty when that is, or when a marker is missing |
| `StatusPage.StatusMeaning` | src/router/ZteF670LRouterClient.cpp:430-440 | whatever the two cells of a page hold, the report is the model, the unescaped version and the uptime, each `Unknown` when its cell is empty or missing, and `Session active` |
| `StatusPage.FirmwareRoundTrip` | src/router/ZteF670LRouterClient.cpp:430-434 | a firmware version written as entities in its cell is reported byte for byte |
| `StatusPage.UptimeRoundTrip` | src/router/ZteF670LRouterClient.cpp:436-439 | an uptime without tags in its cell is reported byte for byte |
| `Protocol.RunInOrder` | src/router/ZteF670LRouterClient.cpp:255-281 | in every run each request carries exactly the jar of its moment and, but for login's own requests to the root page, goes out only while logged in |
| `Protocol.RunExtended` | src/router/ZteF670LRouterClient.cpp:307-629 | a call that meets its specification extends a run, and the state is the replay of the longer log |
| `Protocol.AcceptsMeaning` | src/router/ZteF670LRouterClient.cpp:363-369 | the test of the reply is: status 301 or 302, or status 200 with neither `Frm_Logintoken` nor `Username` anywhere in the body |
| `Logins.LoginAnswerMeaning` | src/router/ZteF670LRouterClient.cpp:307-382 | on messages: a login sends nothing if and only if a credential is missing; it posts if and only if the page came without error; it then succeeds if and only if the reply has no error and status 301 or 302, or 200 with neither literal in the body; and every other login answers which step failed, with the status of a refusal, and ends logged out |
| `Logins.LoginFollows` | src/router/ZteF670LRouterClient.cpp:370-376 | a login sends a third message if and only if the reply has no error, status 301 or 302 and a Location: a fetch of the router's address followed by that Location |
| `Logins.LoggedInAfter` | src/router/ZteF670LRouterClient.cpp:242-382 | after every run the client is logged in if and only if some login's post was accepted, the page it followed had not expired, and since then no operation logged out, failed a login or met an expired response: stated on operations, statuses, headers and bodies |
| `Logins.RequestsWhileAlive` | src/router/ZteF670LRouterClient.cpp:449-454 | in every run only a login sends anything without a live login, its first two messages, to the root page; its third follows an accepted post, and every other operation sends only while the login is alive |
| `Logins.LoginDecisions` | src/router/ZteF670LRouterClient.cpp:307-382 | a login sets the flag exactly when its messages show an accepted post, and clears it exactly when they show a login that failed |
| `Logins.AcceptedFollowsPost` | src/router/ZteF670LRouterClient.cpp:358-372 | in every run the flag is set only right after a post to the root page that came back without error and with status 301 or 302, or 200 and neither literal of the login page in its body |
| `Runs.CookiesSent` | src/router/ZteF670LRouterClient.cpp:259-262 | in every run a request carries a cookie if and only if that was the last value set since the last reset |
| `Runs.NoCookieAcrossReset` | src/router/ZteF670LRouterClient.cpp:250 | a cookie received before a reset is not sent afterwards until it is received again |
| `Runs.WireCarriesJar` | src/network/WinHttpClient.cpp:177-202 | when responses' cookies come from parseCookies, the Cookie header of every request of every run decodes to the session's jar |
| `Logins.LoginSuccessMeaning` | src/router/ZteF670LRouterClient.cpp:370-377 | a successful login has posted, and leaves the client logged in if and only if it did not follow a redirect to a page that looks expired |
| `Logins.LoginSuccessLoggedOut` | src/router/ZteF670LRouterClient.cpp:370-377 | from any state there is a login that succeeds and leaves the client logged out |
| `Logins.LoginFailureMeaning` | src/router/ZteF670LRouterClient.cpp:309-382 | corollary: a failed login sent nothing exactly when a credential was missing, and otherwise leaves the client logged out |
| `Logins.LoginPostMeaning` | src/router/ZteF670LRouterClient.cpp:320-358 | the posted credentials decode to the user name, the hash of password and nonce, an eight-digit nonce, and whichever of the two tokens the page just fetched gives |
| `Logins.LoginFormPost` | src/router/ZteF670LRouterClient.cpp:320-358 | from rendered login page to decoded post: the router reads back the credentials and the tokens of the page's own fields |
| `Runs.AclPostsGranted` | src/router/ZteF670LRouterClient.cpp:524-552 | in every run a post to the filter page follows directly, in the same call, a fetch of that page that gave 200 and no error, left the session alive and held a token, and the post carries that token |
| `Runs.AclSuccessMeaning` | src/router/ZteF670LRouterClient.cpp:554-562 | blocking and unblocking succeed if and only if two requests went out, the second came back without error and with 200 to 399, and the session is still alive |
| `Runs.ExpiryReported` | src/router/ZteF670LRouterClient.cpp:526-528 | corollary: exactly a response to the fetch with status 401, a Location that holds `login` or a body that holds `Frm_Logintoken` is reported as expired, never as a missing token, row or status, and nothing is posted |
| `Runs.MissingTokenMeaning` | src/router/ZteF670LRouterClient.cpp:537-539 | a missing token is reported if and only if the page was fetched and its first _SESSION_TOKEN field is empty, or there is none |
| `Runs.PostsMeaning` | src/router/ZteF670LRouterClient.cpp:536-552 | blocking and unblocking post if and only if the page was fetched, its first _SESSION_TOKEN field is not empty and, for unblocking, it has the row |
| `Runs.ShadowedTokenRefused` | src/router/ZteF670LRouterClient.cpp:536-539 | both operations refuse a page on which an empty static field comes before the token that a script delivers |
| `Answers.FilterNeeds` | src/router/ZteF670LRouterClient.cpp:517-522 | in every state: without an address nothing is sent and the answer is that it is required; with one but no login nothing is sent and the answer says so; with both something is sent |
| `Answers.FilterAnswerMeaning` | src/router/ZteF670LRouterClient.cpp:524-564 | each answer exactly in its case, on the messages: expired, failed or bad status on the fetch, no token, no row, and after the post expired, failed, 200 to 399, or the status |
| `Answers.FilterPostsName` | src/router/ZteF670LRouterClient.cpp:516-552 | in every run whatever is posted to the filter page names a device: the operation's address, which is not empty, under MACAddress when blocking and under MACAddress with a row's index when unblocking |
| `Runs.BlockPostMeaning` | src/router/ZteF670LRouterClient.cpp:536-552 | a block post decodes to the page's own fields with the ten overrides at first occurrences or appended in order; it asks for a new Ban row of the address, and every other name reads as on the page |
| `Runs.RenderedPageBlockPost` | src/router/ZteF670LRouterClient.cpp:107-185 | from rendered page to decoded post: on a page of tags, calls and scripts the router reads back the fields of the tags, those of the calls and the token of the first script that gives one, with the ten overrides |
| `Runs.PlainPageBlockPost` | src/router/ZteF670LRouterClient.cpp:107-185 | on a page of tags with plain values amid plain text, the router reads back the fields of the tags with the ten overrides |
| `Runs.UnblockPostMeaning` | src/router/ZteF670LRouterClient.cpp:587-616 | an unblock post decodes to eleven distinctly named fields that ask to delete the first row whose address is the argument up to letters of one pair, with the page's own token and view id |
| `Logins.LoginSucceeds` | src/router/ZteF670LRouterClient.cpp:370-377 | from any state, for any credentials given, some server lets a login succeed and stay logged in |
| `Runs.AclSucceeds` | src/router/ZteF670LRouterClient.cpp:536-562 | while logged in, any page that is not the login page and whose first _SESSION_TOKEN field is not empty (and which has the row, for unblocking) is enough: some server lets the operation post and succeed |
| `Runs.SomeRunPosts` | src/router/ZteF670LRouterClient.cpp:307-629 | from a new client there are, with any such page, runs that log in and then change the filter, so the statements about all runs speak of real ones |
| `Runs.ScriptTokenIsPosted` | src/router/ZteF670LRouterClient.cpp:136-185 | for every token of that kind there is a run that logs in and blocks a device with a page that delivers the token only by script: the router decodes the token and the ten overrides |
| `Answers.RequestMeaning` | src/router/ZteF670LRouterClient.cpp:255-276 | every request of every call: its method, the address of its page, its headers, no body for a fetch, and the timeout |
| `Answers.LogoutMeaning` | src/router/ZteF670LRouterClient.cpp:384-393 | a logout while logged in sends exactly one request, the fetch of the logoff page, and otherwise none; it always succeeds and leaves nothing of the session |
| `Answers.InfoMeaning` | src/router/ZteF670LRouterClient.cpp:395-444 | each status exactly in its case: not logged in, expired, unknown after an error or an empty page, and active with what the two cells hold |
| `Answers.CellsExist` | src/router/ZteF670LRouterClient.cpp:430-438 | every page has such cells, empty ones included |
| `Answers.InfoRoundTrip` | src/router/ZteF670LRouterClient.cpp:424-443 | from status page to answer: a version written as entities and an uptime, each in its cell, are reported byte for byte |
| `Answers.DeviceListMeaning` | src/router/ZteF670LRouterClient.cpp:446-514 | for every page: nothing without a login, after an expiry, an error or an empty page; otherwise stoi throws if and only if the index of some record exceeds 2147483647, and else exactly the devices that the records describe are listed by increasing index |
| `Answers.DeviceListRoundTrip` | src/router/ZteF670LRouterClient.cpp:446-514 | from printed table to answer: a logged-in call that fetches the page of a table lists exactly its rows by increasing index |
| `DeviceTable.EmptyPageLists` | src/router/ZteF670LRouterClient.cpp:458 | corollary: a page of no text has no devices, so its own branch changes nothing |
| `RouterClient.ZteF670LRouterClient.constructor` | src/router/ZteF670LRouterClient.cpp:227-230 | a new client is valid with no operation behind it, logged out, without token and cookies |
| `RouterClient.ZteF670LRouterClient.MergeCookies` | src/router/ZteF670LRouterClient.cpp:236-240 | the loop merges the response's cookies into the jar, the response winning |
| `RouterClient.ZteF670LRouterClient.CheckSessionExpiration` | src/router/ZteF670LRouterClient.cpp:242-253 | a response with status 401, a Location that holds `login` or a body that holds `Frm_Logintoken` resets all three fields while logged in, anything else none |
| `RouterClient.ZteF670LRouterClient.HttpGet` | src/router/ZteF670LRouterClient.cpp:255-265 | one message crosses the wire, carrying the old jar, and the fields take the step of that event |
| `RouterClient.ZteF670LRouterClient.HttpPost` | src/router/ZteF670LRouterClient.cpp:267-281 | likewise, with the body and the form content type |
| `RouterClient.ZteF670LRouterClient.Login` | src/router/ZteF670LRouterClient.cpp:307-382 | the call extends the run as the login specification allows (`Logins.LoginAnswerMeaning`, `Logins.LoginFollows`), and fields and wire agree with the run |
| `RouterClient.ZteF670LRouterClient.Logout` | src/router/ZteF670LRouterClient.cpp:384-393 | likewise (`Answers.LogoutMeaning`); it always succeeds and leaves the fields as at the start |
| `RouterClient.ZteF670LRouterClient.GetRouterInfo` | src/router/ZteF670LRouterClient.cpp:395-444 | likewise, for the status page (`Answers.InfoMeaning`) |
| `RouterClient.ZteF670LRouterClient.ConnectedDevices` | src/router/ZteF670LRouterClient.cpp:446-514 | likewise, for the device list (`Answers.DeviceListMeaning`) |
| `RouterClient.ZteF670LRouterClient.BlockDevice` | src/router/ZteF670LRouterClient.cpp:516-565 | likewise, for blocking (`Answers.FilterNeeds`, `Answers.FilterAnswerMeaning`) |
| `RouterClient.ZteF670LRouterClient.UnblockDevice` | src/router/ZteF670LRouterClient.cpp:567-629 | likewise, for unblocking (`Answers.FilterNeeds`, `Answers.FilterAnswerMeaning`) |
| `DeviceService.DeviceService.Refresh` | src/services/DeviceService.cpp:27-30 | the cache becomes the list the client just gave; when the client throws it stays as it was |
| `DeviceService.DeviceService.Search` | src/services/DeviceService.cpp:32-40 | the loop computes the specified filter of the cache |
| `DeviceService.SearchMeaning` | src/services/DeviceService.cpp:32-40 | the result is exactly the devices whose name, IP address or MAC address holds the query somewhere up to letters of one pair, in the order of the cache, by a strictly increasing list of positions |
| `DeviceService.SearchIgnoresCase` | src/services/DeviceService.cpp:18-20 | queries that differ only in the case of letters, byte by byte, give the same result |
| `DeviceService.SearchNarrows` | src/services/DeviceService.cpp:32-40 | searching for any text that holds the first query somewhere up to case narrows the first result: filtering that result again gives the second |

## Left out

- WinHTTP handles, timeouts and URL cracking, and the libcurl transport: replaced by a transport that may answer anything.
- The Location header's own parsing in the transport: responses carry arbitrary headers.
- SHA-256 and random numbers: the hash is an arbitrary function, the nonce any number of eight digits.
- The text of messages: results carry a reason instead, with the status code where the message shows one.
- `fetchLoginToken`, which nothing calls.
- The console commands, the configuration file, the logger and the factory: thin wiring with nothing hard to prove.
- Regular expressions in general: only the constructs these patterns use. A regular-expression library that lets `$` match before a line break, or that gives up on long input, behaves differently.
- Cookie attributes other than Max-Age (Expires, Domain, Path, Secure, HttpOnly): the client ignores them, and their rules are not modelled; cookies are told apart by name alone.
- Aliasing: the field list of a form is one object, the devices and jars are values; the original copies them.
- The router: claims are about what it decodes from a request, not about what it then does.
