# ZeroM2M: a verified model of its JSON, resource tree, addressing and HTTP code

ZeroM2M is a oneM2M common services entity for a bare-metal Raspberry Pi. This project models four of its
components in Dafny and proves what they promise, over all inputs and all runs:

* **JSON** (`Jsmn*.dfy`, `Json*.dfy`): the one-pass tokenizer with its shared token array, in both its counting
  and its filling mode, the recursive tree builder and the two printers. The reference points are a recognizer
  with an explicit bracket stack, the grammar of RFC 8259 as concrete syntax trees, and its numbers with the values
  they denote.
* **The oneM2M service and its tables** (`Store`, `OneM2M`, `Service`, `ResourceTree`, `History`, `Admission`,
  `FreeIds`, `EdgeNames`, `Containers`, `Access`, `Reading`, `Delivery`, `NotifiedRun`, `Packing`): rows in rowid order,
  creates (accepted or refused), retrieves, reboots that keep the database, capacity limits, the access rule, the latest and oldest instance,
  notifications.
* **Addressing** (`Addressing.dfy`): the CSE-relative, SP-relative and absolute forms and their normal form.
* **HTTP** (`HttpText`, `CBuffer`, `HttpRequests`, `HttpRequestCodec`, `HttpResponses`, `HttpResponseCodec`,
  `HttpAdapter`, `HttpDaemon`, `HttpWire`, `HttpTolerance`): the parsers that write NULs into the buffer they scan, the
  serialisers, the oneM2M binding on top and the receive loops below.

Code that works step by step is a class or a method with loops, proved against a function of its input or its
old state; the theorems are lemmas about those functions. Their conditions and results are spelled out in terms of
their own (the grammar, `Admission`, `Reading`, `Delivery`, `HttpWire`), not with the predicates the code tests. `dafny verify dfyconfig.toml` checks everything.

## What the proofs found

* `JsonRoundTrip.RoundTripIff`: parsing printed text gives the value back exactly when nothing in it needed
  escaping and it has at most 1024 tokens. Otherwise its strings come back escaped (`ParseOfPrint`), or not at all.
* `History.CreateGrowsIff`: an accepted create extends the table exactly when its id is unused as an id, a name
  and a path. An AE may bring the id the counter gives out next; the following create then takes its row
  (`History.BroughtIdIsLost`). `FreeIds.RegisteredAeIsLost` is such a run, two requests long, from the first boot:
  the AE's row is gone, yet the AE cannot register again, because its AE-ID stays in the `ae` table for good
  (`History.RegistersOnce`). Clients that keep to names and originators of their own never get there, which can be
  told from their requests alone (`FreeIds.IdsStayFree`).
* `Access.ContainerRetrieved`: a container is answered for at its own path exactly when its name does not have
  two characters. With two, the name is mistaken for `la` or `ol` and an ancestor is looked up (`TwoCharacterName`);
  `EdgeNames.TwoCharacterRun` is a run with a container named `ab`. For the same reason an AE answers to its own path
  with `/la` after it (`Reading.FurtherByAddress`).
* `Reading.RetrievedByAddress`: a subscription is shown to the creator due to its request only. One without a creator
  is shown to whoever gives no originator, because a missing creator is stored and compared as an empty text.
* `History.StoredPathIsWalkIff`: the stored path differs from the walk up the parents exactly when the parent's
  path is one character long, because the slash is then left out. `EdgeNames.OneCharacterRun` is a run under a CSE
  named `c`: the container `box` is stored at `cbox` and `/c/box` is not found.
* `History.AbsoluteAfterReboot`: the SP-ID is only learnt while seeding an empty database, so a CSE that resumes
  answers every absolute address with NOT_FOUND.
* `Addressing.FormsAgree`: each addressing form leads to the canonical path exactly when it is unambiguous in
  this CSE; `Addressing.Unambiguous` spells the conditions out form by form.
* `HttpRequests.SixteenIsMissing`: a header block that ends at offset 16 is rejected, since 16 also means "not
  found", and no other block is rejected for where it ends. `GET /ab HTTP/1.1` alone is such a block, and so is
  one with a field (`SixteenCharacterLine`, `SixteenCharacterBlock`). No serialised request ends its header there
  (`HttpRequests.HeaderEnds`).
* `HttpDaemon.PiecesDoNotMatter`: a message reaches the parser whole exactly when the buffer has a byte more than
  the message; with none to spare the worker would write its NUL past the buffer (`NoRoom`).
* `HttpAdapter.WireRoundTrip`: a create without content or without a resource type arrives as a notification.
* `Packing.PackRoundTrip`: a list survives storage exactly when no entry holds the separator 0x1F and it is not
  the list of one empty entry.

## Assumptions

* SQL statements succeed, `LIMIT 1` without an order returns the lowest rowid, `INSERT OR REPLACE` replaces the
  row with the same ri and gives the new one the highest rowid, a NULL column matches nothing.
* The CSE's name has at least two characters and its ri is not empty (`ResourceTree.ConfigOk`).
* Theorems about runs speak of runs in which every accepted create finds its id unused (`History.FreeRun`);
  `History.CreateGrowsIff` says what happens otherwise and `FreeIds.IdsStayFree` when it cannot.
* Sibling names need not be unique. Where a property looks a container up by its path, it asks that the path
  finds that container.
* Strings are the contents of C strings. Numbers are mathematical: positions, counters and sums stay inside
  their C types.

## Model

| member | source | states |
|---|---|---|
| JsonTokenizing.ScanStringIff | zerom2m/src/serde/json/jsmn.h:193-263 | a string scan ends at a position if and only if it holds a quote and everything before it is a string body: the first quote that is not escaped |
| JsonTokenizing.CharsAgree | zerom2m/src/serde/json/jsmn.h:135-260 | the characters the scanners test for are the white space, escapes, hexadecimal digits and word characters of RFC 8259 and of the non-strict tokenizer |
| JsonTokenizing.ScanPrimitiveIff | zerom2m/src/serde/json/jsmn.h:135-188 | a primitive scan ends at a position if and only if visible text lies before it and the text, a NUL, white space or a structural character ends it |
| JsonTokenizing.StringCutShort | zerom2m/src/serde/json/jsmn.h:193-263 | a string literal whose text ends before its quote gives the code for a text that is not complete |
| JsonTokenizing.StringBadEscape | zerom2m/src/serde/json/jsmn.h:215-250 | a backslash before a character that makes no escape gives the code for a malformed text |
| JsmnInvariants.StepKeepsInv | zerom2m/src/serde/json/jsmn.h:276-440 | every turn of the filling run keeps: tokens delimited by the right characters, starts increasing, intervals nested or disjoint, sizes plus parentless tokens equal to tokens allocated |
| JsmnInvariants.FillTokens | zerom2m/src/serde/json/jsmn.h:268-453 | after any successful fill the result is the token count, tokens are in pre-order and well placed, none is open, and the sizes add up |
| JsmnReference.ScanFindsTop | zerom2m/src/serde/json/jsmn.h:337-358 | the unclosed token found by scanning backwards is the top of the bracket stack, and closing it pops the stack |
| JsmnReference.StepSimulates | zerom2m/src/serde/json/jsmn.h:276-440 | one turn of the filling run and one of the bracket-stack recognizer succeed together and stay in correspondence |
| JsmnReference.FillIsRecognition | zerom2m/src/serde/json/jsmn.h:268-453 | for every text and number of slots, filling succeeds exactly when the recognizer accepts with enough slots, and the container tokens are exactly its matching bracket pairs |
| JsmnReference.FailureCodes | zerom2m/src/serde/json/jsmn.h:268-453 | a failed fill returns -1 only when the slots do not suffice or the recognizer refuses too, and otherwise the recognizer's reason: -3 for a text that ends inside a bracket or a string, -2 for a malformed one |
| JsmnReference.StepsInLockstep | zerom2m/src/serde/json/jsmn.h:276-440 | the counting and the filling run move from each position to the same next one |
| JsmnReference.CountedSlotsSuffice | zerom2m/src/serde/json/jsmn.h:268-453 | a successful fill returns the counted number, a failed count means a failed fill, and with the counted slots filling never runs out of tokens |
| JsmnParser.Parser.constructor | zerom2m/src/serde/json/jsmn.h:459-463 | the parser starts at position 0 with no token and no parent |
| JsmnParser.Parser.AllocFill | zerom2m/src/serde/json/jsmn.h:106-130 | the next slot is taken and filled, or nothing changes and -1 is returned when all are used |
| JsmnParser.Parser.ParsePrimitive | zerom2m/src/serde/json/jsmn.h:135-188 | the in-place primitive scan agrees with the specification and stores its token |
| JsmnParser.Parser.ParseString | zerom2m/src/serde/json/jsmn.h:193-263 | the in-place string scan agrees with the specification, restores the position on error and stores its token |
| JsmnParser.Parser.ScanBack | zerom2m/src/serde/json/jsmn.h:337-358 | the backward loop finds the last open token (or open container) |
| JsmnParser.Parser.CloseToken | zerom2m/src/serde/json/jsmn.h:308-360 | a closing bracket closes that token and makes the next open one the parent, or is refused |
| JsmnParser.Parser.OpenToken | zerom2m/src/serde/json/jsmn.h:281-307 | an opening bracket stores an open token, charges its parent and becomes the parent |
| JsmnParser.Parser.CommaToken | zerom2m/src/serde/json/jsmn.h:379-396 | a comma after a pair gives the parent role back to the enclosing container |
| JsmnParser.Parser.Turn | zerom2m/src/serde/json/jsmn.h:276-440 | one turn of the main loop is one step of the specification, in both modes |
| JsmnParser.Parser.Parse | zerom2m/src/serde/json/jsmn.h:268-453 | the in-place tokenizer computes the specified run, in both modes, and leaves the specified tokens in the array |
| JsonTokenizing.LexDoc | zerom2m/src/serde/json/jsmn.h:268-453 | from any state the filling run turns the text of a grammatical value into exactly its tokens |
| JsonTokenizing.LexText | zerom2m/src/serde/json/jsmn.h:268-453 | every RFC 8259 text, with white space anywhere the grammar allows, is tokenized into the tokens of its structure |
| JsonRoundTrip.BuildDoc | zerom2m/src/serde/json/json.cpp:338-405 | the builder consumes exactly the subtree of its token and yields the value of that part of the text |
| JsonRoundTrip.ParseOfText | zerom2m/src/serde/json/json.cpp:292-320 | every RFC 8259 text parses to the value it denotes, unless it has more than 1024 tokens; string units, white space and word ends are the grammar's own |
| JsonNumbers.NumeralIsRead | zerom2m/src/serde/json/json.cpp:423-464 | every number of RFC 8259, section 6, is read as the number its sign, digits, fraction and exponent denote |
| JsonNumbers.NumberParses | zerom2m/src/serde/json/json.cpp:292-464 | a text that is such a number, with white space around it, parses to that number |
| JsonNumbers.NamesAreRead | zerom2m/src/serde/json/json.cpp:338-360 | the three literal names are read as null and the two truth values |
| JsonRoundTrip.SerializeIsText | zerom2m/src/serde/json/json.cpp:188-231 | the printer writes a grammatical text of the value |
| JsonRoundTrip.PrettyIsText | zerom2m/src/serde/json/json.cpp:233-290 | so does the indenting printer, from any depth of its 8-bit counter |
| JsonRoundTrip.ParseOfPrint | zerom2m/src/serde/json/json.cpp:140-405 | parsing what either printer wrote gives the value with its strings and keys escaped, or nothing beyond the token cap |
| JsonRoundTrip.RoundTripIff | zerom2m/src/serde/json/json.cpp:140-421 | printing and parsing give back the same value if and only if nothing needs escaping and the cap is respected |
| JsonRoundTrip.UnescapeInvertsEscape | zerom2m/src/serde/json/json.cpp:140-180 | unescaping a printed string body gives the string back |
| JsonDocument.SerializeString | zerom2m/src/serde/json/json.cpp:140-180 | the escaping loop appends the quoted escaped string |
| JsonDocument.ExtractToken | zerom2m/src/serde/json/json.cpp:408-421 | the copying loop returns the token's characters as they are |
| JsonDocument.ParseDouble | zerom2m/src/serde/json/json.cpp:423-464 | the number loops compute the value the digits, fraction and exponent spell |
| JsonDocument.ParseValue | zerom2m/src/serde/json/json.cpp:338-405 | the builder with its moving index computes the specified value and index, and terminates on every token array |
| JsonDocument.ParseElements | zerom2m/src/serde/json/json.cpp:362-375 | the loop over an array's children |
| JsonDocument.ParseMembers | zerom2m/src/serde/json/json.cpp:378-399 | the loop over an object's pairs, with its early exits |
| JsonDocument.Parse | zerom2m/src/serde/json/json.cpp:292-320 | count, allocate at most 1024 slots, fill and build compute the specified tree |
| Addressing.SegmentsIff | zerom2m/src/onem2m/onem2m_service.cpp:311-329 | a path splits into given segments exactly when they are non-empty, slash-free and rejoin to it |
| Addressing.ParsedPathRejoins | zerom2m/src/onem2m/onem2m_service.cpp:253-329 | every accepted path is its form mark, its SP-ID if absolute, and non-empty slash-free segments rejoined |
| Addressing.FormsAgree | zerom2m/src/onem2m/onem2m_service.cpp:245-408 | each addressing form of a resource canonicalises to its one path if and only if the form is unambiguous in this CSE |
| Addressing.ForeignSpid | zerom2m/src/onem2m/onem2m_service.cpp:331-408 | an absolute address of another service provider is refused as such, not as malformed |
| Addressing.UnstructuredForm | zerom2m/src/onem2m/onem2m_service.cpp:331-408 | an SP-relative bare resource-ID canonicalises to the id itself |
| Addressing.CollectSegments | zerom2m/src/onem2m/onem2m_service.cpp:311-329 | the segment loop collects the specified segments or fails as specified |
| Addressing.ParseAddressingPath | zerom2m/src/onem2m/onem2m_service.cpp:253-329 | the position-moving parser computes the specified parse |
| Addressing.CanonicalizeAddressingPath | zerom2m/src/onem2m/onem2m_service.cpp:331-408 | the normaliser computes the specified canonical path or refusal |
| Packing.PackRoundTrip | zerom2m/src/sqlite/database.cpp:235-261 | a list survives storage if and only if no entry has the separator and it is not the list of one empty entry |
| Packing.EnumRoundTrip | zerom2m/src/sqlite/database.cpp:262-296 | every list of enumeration values survives storage |
| Packing.VecToPacked | zerom2m/src/sqlite/database.cpp:235-243 | the joining loop |
| Packing.PackedToVec | zerom2m/src/sqlite/database.cpp:245-261 | the character loop computes the specified pieces |
| Packing.EnumVecToPacked | zerom2m/src/sqlite/database.cpp:262-274 | the joining loop over numerals |
| Packing.PackedToEnumVec | zerom2m/src/sqlite/database.cpp:276-296 | the character loop reads the specified numbers, skipping empty pieces |
| Store.Resolve | zerom2m/src/sqlite/database.cpp:832-860 | the row found is the lowest whose ri, rn or path is the target |
| ResourceTree.ResolveIff | zerom2m/src/sqlite/database.cpp:832-860 | a row is the one found if and only if the target is its id, its name or its path and none of an earlier row's |
| Store.Database.constructor | zerom2m/src/sqlite/database.cpp:20-27 | a fresh store has no row, no registered AE, and its counter is 1 |
| Store.Database.GenerateResourceId | zerom2m/src/sqlite/database.cpp:197-232 | the id is C and the counter's numeral, and the counter moves on |
| Store.Database.Save | zerom2m/src/sqlite/database.cpp:409-471 | a row replaces the one with its ri and is stored last with its path, and an AE is registered; or nothing changes when the parent has no path |
| OneM2M.CreateOutcome | zerom2m/src/onem2m/onem2m_service.cpp:629-696 | every create either changes no row and is refused, or inserts the row it answers with below the row its own address leads to, with the content, name and creator due to the request, a legal kind, a valid name and room in its container; without a valid address it is refused and changes nothing |
| ResourceTree.ResolveAppend | zerom2m/src/sqlite/database.cpp:832-860 | rows added later never change what a target resolves to |
| ResourceTree.UniqueIds | zerom2m/src/sqlite/database.cpp:29-46 | ids are unique in a tree |
| ResourceTree.WalkIsPath | zerom2m/src/sqlite/database.cpp:1643-1674 | the stored path of every row equals the recursive walk up its parents, which ends |
| ResourceTree.GrowsIffFree | zerom2m/src/sqlite/database.cpp:409-471 | a row with an acceptable parent keeps all rows and the tree if and only if its id is unused |
| History.RebootResumes | zerom2m/src/onem2m/onem2m_service.cpp:541-555 | a reboot of a live store changes no table and forgets the SP-ID |
| History.CreateGrowsIff | zerom2m/src/onem2m/onem2m_service.cpp:629-696 | an accepted create extends the tree if and only if the id it is about to use is unused; then it adds exactly the row it answers with |
| History.StepKeepsInv | zerom2m/src/onem2m/onem2m_service.cpp:509-696 | every event keeps the tree and the log, and rows and log only grow |
| History.RefusedKeepsRows | zerom2m/src/onem2m/onem2m_service.cpp:629-682 | a refused create changes no row |
| History.RunsKeepTree | zerom2m/src/onem2m/onem2m_service.cpp:698-1405 | over every run: parents exist earlier, kinds are legal, ids are found by themselves, paths extend the parent's, and the rows are the accepted creates in order |
| History.RunsOnlyGrow | zerom2m/src/onem2m/onem2m_service.cpp:698-1405 | an earlier state's rows and log are prefixes of every later state's |
| History.ResolutionIsStable | zerom2m/src/sqlite/database.cpp:832-860 | once a target resolves, every later state resolves it to the same resource |
| History.PathsAgree | zerom2m/src/sqlite/database.cpp:1643-1674 | in every run each stored path is the walk up the parents |
| History.IssuedInOrder | zerom2m/src/sqlite/database.cpp:197-232 | the ids drawn are C1, C2, ... in every run, through refusals and reboots |
| History.NeverReissued | zerom2m/src/sqlite/database.cpp:197-232 | no id is issued twice |
| History.LogIdsDiffer | zerom2m/src/sqlite/database.cpp:29-46 | the resources accepted in a run have different ids |
| FreeIds.LogIsSourced | zerom2m/src/onem2m/onem2m_service.cpp:698-1405 | every accepted resource, in every run, has the content that some request asked for, the id it brought or a generated one, the name it gave or the default for that id, and the creator due to it |
| FreeIds.IdsStayFree | zerom2m/src/onem2m/onem2m_service.cpp:787-823 | when no submitted name looks generated and no AE's originator looks generated, holds a slash, is a configured name or a name an earlier request may have led to, every accepted create finds its id unused |
| FreeIds.RegisteredAeIsLost | zerom2m/src/onem2m/onem2m_service.cpp:787-811 | a run from the first boot: an AE is accepted as C2 and C2 loads its row; the next container is accepted, is given C2, and C2 loads the container; no row is the AE's, and the same registration is now refused because its originator is registered |
| FreeIds.LossIsAnInstance | zerom2m/src/onem2m/onem2m_service.cpp:787-811 | that run meets the hypotheses of History.BroughtIdIsLost |
| History.RegisteredIff | zerom2m/src/sqlite/database.cpp:1624-1641 | over every run, also one that loses rows, the AE-IDs found registered are exactly those of the AEs ever accepted |
| History.RegistersOnce | zerom2m/src/onem2m/onem2m_service.cpp:798-811 | an originator that is the id of an accepted AE is refused as a new one in every later state |
| History.TidyKeepsApart | zerom2m/src/onem2m/onem2m_service.cpp:791-823 | when no submitted name or AE originator has the form of a generated id and brought ids are unused, no create ever finds its id taken |
| History.BroughtIdIsLost | zerom2m/src/onem2m/onem2m_service.cpp:791-811 | an AE that brings the next generated id makes the next accepted create break the tree |
| History.StoredPathIsWalkIff | zerom2m/src/sqlite/database.cpp:446-462 | for any rows, stored path and walk agree if and only if the parent's path is not one character |
| History.AbsoluteAfterReboot | zerom2m/src/onem2m/onem2m_service.cpp:541-560 | after a reboot every absolute address is answered with NOT_FOUND and changes nothing |
| History.NoInternalError | zerom2m/src/onem2m/onem2m_service.cpp:833-841 | in a tree no create is ever answered with an internal error |
| Admission.Answered | zerom2m/src/onem2m/onem2m_service.cpp:629-1405 | in a tree every create is answered with the code its first failing condition calls for, from the address to the last check of its type, and draws an id exactly when it gets that far |
| Admission.AcceptedIff | zerom2m/src/onem2m/onem2m_service.cpp:629-696 | in a tree a create is accepted if and only if its address is valid, it has an originator or registers an AE, its target exists and no condition of its type fails |
| Admission.AeAnswered | zerom2m/src/onem2m/onem2m_service.cpp:698-851 | the conditions on an AE in their order, each with its code: parent, application id, serialisations, sibling name, the CSE's own id, registered originator, name |
| Admission.ContainerAnswered | zerom2m/src/onem2m/onem2m_service.cpp:853-952 | the conditions on a container, each with its code: parent, name, creator |
| Admission.RoomIffNotFull | zerom2m/src/onem2m/onem2m_service.cpp:1026-1094 | the two capacity checks pass exactly when neither limit is exceeded with the new instance in it |
| Admission.ContentInfoIff | zerom2m/src/onem2m/onem2m_service.cpp:410-442 | valid content infos are the empty one and media/subtype:number with a number up to 8 |
| Admission.CinAnswered | zerom2m/src/onem2m/onem2m_service.cpp:954-1134 | the conditions on a content instance in their order, each with its code: parent, content info, creator, policy, room, name |
| Admission.WatchableIff | zerom2m/src/onem2m/onem2m_service.cpp:1181-1225 | a subscription may watch exactly the resource types that may sit under its parent |
| Admission.EventTypesIff | zerom2m/src/onem2m/onem2m_service.cpp:1268-1358 | which subscriptions with event types 7 and 8 are refused |
| Admission.OtherEventTypes | zerom2m/src/onem2m/onem2m_service.cpp:1268-1358 | no subscription is refused for other event types |
| Admission.VerifiedIff | zerom2m/src/onem2m/onem2m_service.cpp:1826-1870 | verification succeeds exactly when some notification URI is an id reached through the parent AE's point of access, or an http URL that answers |
| Admission.SubAnswered | zerom2m/src/onem2m/onem2m_service.cpp:1136-1405 | the conditions on a subscription, each with its code: parent, name, creator, event types, watched types, verification |
| Containers.ChildrenAreLogged | zerom2m/src/sqlite/database.cpp:1336-1412 | the children a query returns are the accepted creates under that parent, in their order |
| Containers.SizeIsLogged | zerom2m/src/sqlite/database.cpp:1577-1600 | the size sum is that of the accepted instances |
| Containers.AdmittedFits | zerom2m/src/onem2m/onem2m_service.cpp:1026-1094 | an instance let in leaves its container within both limits |
| Containers.CapacityIsKept | zerom2m/src/onem2m/onem2m_service.cpp:1026-1094 | over every run, no container is given more instances or bytes than the limits it was created with allow |
| Containers.CountsAreTrue | zerom2m/src/onem2m/onem2m_service.cpp:1565-1670 | RetrieveContainer at the container's own path refuses strangers and disabled retrieval, and otherwise carries the count and size of exactly the instances created in it |
| Access.AllowedIff | zerom2m/src/onem2m/onem2m_service.cpp:471-493 | access is granted exactly to the administrator and to the owner of the nearest ancestor that is no container, if within 32 steps |
| Access.LatestAndOldest | zerom2m/src/onem2m/onem2m_service.cpp:1565-1637 | a permitted originator gets the instance created last (first) in that container, for every interleaving |
| Access.LatestByEveryForm | zerom2m/src/onem2m/onem2m_service.cpp:1407-1504 | and gets it by every unambiguous address of the container |
| Access.AddressReaches | zerom2m/src/onem2m/onem2m_service.cpp:331-408 | every unambiguous address of a resource leads to its stored path |
| Access.StoredWhereAddressed | zerom2m/src/onem2m/onem2m_service.cpp:629-696 | over every run, a create accepted at an unambiguous address of a resource is stored as the last row, directly under that resource, with its path |
| Access.LooksLikeEndIff | zerom2m/src/onem2m/onem2m_service.cpp:1440-1451 | a stored path has a slash three characters from its end if and only if the last name has two characters |
| Access.TwoCharacterName | zerom2m/src/onem2m/onem2m_service.cpp:1440-1459 | a resource with a two-character name, other than an instance, is never the answer to a retrieve of its path |
| EdgeNames.TwoCharacterRun | zerom2m/src/onem2m/onem2m_service.cpp:1440-1469 | a run from the first boot: a container named ab is accepted, its path finds its row, and a retrieve of that path by the administrator is answered with NOT_FOUND |
| EdgeNames.OneCharacterRun | zerom2m/src/sqlite/database.cpp:446-462 | under a CSE named c an accepted container box is stored at cbox while the walk gives c/box, and a retrieve of /c/box is answered with NOT_FOUND |
| Access.ContainerRetrieved | zerom2m/src/onem2m/onem2m_service.cpp:1407-1480 | a retrieve that leads to a container's path is answered with its true count and size or the refusal due when its name does not have two characters, and never with that container when it has |
| Reading.RetrievedByAddress | zerom2m/src/onem2m/onem2m_service.cpp:1407-1763 | over every run, at every unambiguous address of a resource whose path finds it and whose name does not have two characters: the CSE is shown to CAdmin alone, an AE to its own id alone, a subscription to the creator due to its request alone, a container and an instance to who may read the container, each with the refusal otherwise due, judged by the log and the request |
| Reading.EndByAddress | zerom2m/src/onem2m/onem2m_service.cpp:1565-1670 | a request for the latest or oldest instance is refused to strangers and with retrieval disabled, finds nothing in an empty container, and otherwise is answered for with the last or first instance created there |
| Reading.FurtherByAddress | zerom2m/src/onem2m/onem2m_service.cpp:1436-1499 | two characters further than a resource nothing is found, but la and ol of an AE, a subscription or an instance answer like the resource itself |
| Reading.RowShows | zerom2m/src/sqlite/database.cpp:524-806 | a stored row has the id, name, parent, lists and type attributes of what was accepted |
| Reading.MayReadIff | zerom2m/src/onem2m/onem2m_service.cpp:471-493 | who may read a container, told by ids: the administrator, or the AE or CSE it belongs to within 32 steps |
| Reading.BeforeFirstBoot | zerom2m/src/onem2m/onem2m_service.cpp:629-640 | without a CSEBase a create is an internal error and a retrieve a bad request |
| Access.PathIsNames | zerom2m/src/sqlite/database.cpp:446-462 | a stored path is the canonical address made of the names above it |
| Delivery.StoredSubscription | zerom2m/src/sqlite/database.cpp:1151-1207 | a subscription comes back from the store with the criteria and URIs submitted, and loads exactly when they are sane |
| Delivery.MatchesIffMet | zerom2m/src/onem2m/onem2m_service.cpp:41-111 | the matching functions test the submitted criteria: event type 3, a listed or no child type, all labels asked for, size strictly within the limits given |
| Delivery.ExpectedIff | zerom2m/src/onem2m/onem2m_service.cpp:98-111 | an attempt is expected for exactly the URIs of the subscriptions that are due one |
| Delivery.DeliveriesAreExact | zerom2m/src/onem2m/onem2m_service.cpp:682-695 | after a create the attempts are, in order, those due to the subscriptions under the same parent by their submitted criteria; refused creates and new subscriptions cause none |
| NotifiedRun.SubscriberIsNotified | zerom2m/src/onem2m/onem2m_service.cpp:682-695 | a run from the first boot: a subscription to content instances under a container is accepted, and a labelled instance created there is delivered to its URI |
| OneM2MService.IsValidResourceName | zerom2m/src/onem2m/utils.cpp:39-53 | the loop accepts exactly non-empty names of the allowed characters |
| OneM2MService.IsValidContentInfo | zerom2m/src/onem2m/onem2m_service.cpp:410-442 | the pointer loops accept exactly media/subtype:encoding with an encoding up to 8 |
| OneM2MService.MatchesLabels | zerom2m/src/onem2m/onem2m_service.cpp:54-73 | every required label is among the resource's |
| OneM2MService.MatchesChildType | zerom2m/src/onem2m/onem2m_service.cpp:41-52 | no type is required, or the resource's is among them |
| OneM2MService.MatchesAll | zerom2m/src/onem2m/onem2m_service.cpp:75-111 | the four matching functions together |
| OneM2MService.IsAllowedForContainer | zerom2m/src/onem2m/onem2m_service.cpp:471-493 | the guarded upward loop computes the access rule |
| OneM2MService.IsFull | zerom2m/src/onem2m/onem2m_service.cpp:1026-1094 | the two capacity checks |
| OneM2MService.SendSubscriptionVerification | zerom2m/src/onem2m/onem2m_service.cpp:1826-1870 | the loop succeeds exactly when some notification URI is reachable |
| OneM2MService.Service.GetId | zerom2m/src/onem2m/onem2m_service.cpp:497-507 | a new id is drawn from the store's counter |
| OneM2MService.Service.Initialize | zerom2m/src/onem2m/onem2m_service.cpp:509-606 | a second call does nothing; the first resumes a store with a CSEBase or seeds it and learns the SP-ID |
| OneM2MService.Service.CreateAE | zerom2m/src/onem2m/onem2m_service.cpp:698-851 | tables and reply are the specified ones, check by check |
| OneM2MService.Service.CreateContainer | zerom2m/src/onem2m/onem2m_service.cpp:853-952 | tables and reply are the specified ones, check by check |
| OneM2MService.Service.CreateContentInstance | zerom2m/src/onem2m/onem2m_service.cpp:954-1134 | tables and reply are the specified ones, check by check |
| OneM2MService.Service.CreateSubscription | zerom2m/src/onem2m/onem2m_service.cpp:1136-1405 | tables and reply are the specified ones, check by check |
| OneM2MService.Service.SendNotification | zerom2m/src/onem2m/onem2m_service.cpp:1765-1824 | the nested loops hand exactly the specified attempts to delivery, in order |
| OneM2MService.Service.Create | zerom2m/src/onem2m/onem2m_service.cpp:629-696 | tables, reply and deliveries of a whole create request |
| HttpText.FirstBlankOfJoin | zerom2m/src/http/http_codec.cpp:225-233 | the blank line is found where it was written |
| HttpText.LfLinesOfJoin | zerom2m/src/http/http_codec.cpp:311-334 | lines that were joined are read back as they were |
| HttpText.FieldRoundTrip | zerom2m/src/http/http_codec.cpp:274-302 | a safe header field is read back from its line |
| HttpRequests.RequestLineParses | zerom2m/src/http/http_codec.cpp:237-272 | a request line gives back method, target, and path and query split at the first question mark |
| HttpRequests.HeaderEnds | zerom2m/src/http/http_codec.cpp:223-235 | a serialised request's header ends past offset 16, whatever follows |
| HttpRequests.RoundTrip | zerom2m/src/http/http_codec.cpp:213-456 | parsing undoes serialising, whatever bytes follow the body |
| HttpRequests.PrefixRejected | zerom2m/src/http/http_codec.cpp:213-366 | every strict prefix of a serialised request with its body is rejected |
| HttpRequests.SixteenIsMissing | zerom2m/src/http/http_codec.cpp:225-235 | any header block is rejected when it ends at 16, and otherwise is read by its lines and then its body |
| HttpRequests.SixteenCharacterLine | zerom2m/src/http/http_codec.cpp:225-235 | `GET /ab HTTP/1.1` is a sound request line, and the request is rejected |
| HttpRequests.SixteenCharacterBlock | zerom2m/src/http/http_codec.cpp:225-235 | so is a block with a field that ends at 16 |
| CBuffer.FindBlank | zerom2m/src/http/http_codec.cpp:227-233 | the loop finds the first blank line |
| CBuffer.StrChr | zerom2m/src/http/http_codec.cpp:237-302 | the search inside a C string of the buffer |
| CBuffer.TakeToken | zerom2m/src/http/http_codec.cpp:238-246 | the token before a space is cut off with a NUL and both parts are C strings |
| CBuffer.ParseHeaderLineAt | zerom2m/src/http/http_codec.cpp:274-302 | the in-place header line parser reads the specified field and writes only inside its line |
| HttpRequestCodec.ParseHead | zerom2m/src/http/http_codec.cpp:304-338 | the line loop over the header block computes the specified request and leaves the body alone |
| HttpRequestCodec.ParseRequest | zerom2m/src/http/http_codec.cpp:213-366 | the in-place parser computes the specified result of the bytes it was given |
| HttpRequestCodec.SerializeRequest | zerom2m/src/http/http_codec.cpp:368-456 | the appending serialiser writes the specified header block |
| HttpResponses.AddAllDistinct | zerom2m/include/zerom2m/http/types.h:173-187 | fields of different names come back as they were written |
| HttpResponses.RoundTrip | zerom2m/src/http/http_codec.cpp:458-621 | parsing undoes serialising for bodies up to 4096 bytes, whatever follows, and refuses longer ones |
| HttpResponses.PrefixRejected | zerom2m/src/http/http_codec.cpp:491-621 | every strict prefix of a serialised response with its body is rejected |
| HttpResponseCodec.WalkLines | zerom2m/src/http/http_codec.cpp:523-592 | the line loop, with the branch that goes round without moving on, ends on every buffer and computes the specified scan |
| HttpResponseCodec.ParseResponse | zerom2m/src/http/http_codec.cpp:491-621 | the in-place parser computes the specified result of the bytes it was given |
| HttpResponseCodec.SerializeResponse | zerom2m/src/http/http_codec.cpp:458-489 | the appending serialiser writes the specified header block |
| HttpAdapter.ContentTypeIsSafe | zerom2m/src/onem2m/bindings/http/http_adapter.cpp:196-226 | the resource type put into a Content-Type is read back from it |
| HttpAdapter.OperationFound | zerom2m/src/onem2m/bindings/http/http_adapter.cpp:495-527 | create and notify share POST and are told apart by the resource type |
| HttpAdapter.WireRoundTrip | zerom2m/src/onem2m/bindings/http/http_adapter.cpp:319-351 | encode, serialise, receive with any bytes after, parse and decode give back the primitive |
| HttpAdapter.EncodeRequest | zerom2m/src/onem2m/bindings/http/http_adapter.cpp:659-756 | the fields are pushed one by one into the specified request |
| HttpAdapter.DecodeRequest | zerom2m/src/onem2m/bindings/http/http_adapter.cpp:227-351 | the record is filled with the specified values |
| HttpWire.RequestText | zerom2m/src/http/http_codec.cpp:368-456 | a request on the wire: method, target and version, each field as name, colon, blank and value, a blank line; which fields there are is written out |
| HttpWire.RequestReceived | zerom2m/src/http/http_codec.cpp:213-456 | the server gets the target split at its question mark and exactly those fields in their order |
| HttpWire.ResponseText | zerom2m/src/http/http_codec.cpp:458-489 | a response on the wire: status line, Server, the caller's fields that have a name and a value, Content-Length unless given, Connection |
| HttpWire.ResponseReceived | zerom2m/src/http/http_codec.cpp:458-621 | the client gets, for every name, the value sent for it last, each name once, and exactly the fields sent when their names differ |
| HttpWire.PrimitiveHeaders | zerom2m/src/onem2m/bindings/http/http_adapter.cpp:659-756 | each part of a primitive travels in the header field of the binding, and the operation in the method |
| HttpWire.TypeInOwnField | zerom2m/src/onem2m/bindings/http/http_adapter.cpp:285-293 | a resource type may come in its own header field |
| HttpTolerance.BlanksAroundValue | zerom2m/src/http/http_codec.cpp:274-302 | blanks and tabs around a header value do not count |
| HttpTolerance.RequestLineRead | zerom2m/src/http/http_codec.cpp:237-272 | a request line needs two spaces and one of the nine methods |
| HttpTolerance.EmptyLinesSkipped | zerom2m/src/http/http_codec.cpp:311-338 | empty lines in a header block make no difference |
| HttpTolerance.BodyCutAtNul | zerom2m/src/http/http_codec.cpp:340-366 | the body is what was received up to its first NUL |
| HttpTolerance.LengthNameIff | zerom2m/src/http/http_codec.cpp:577-583 | a field announces the length when its name starts with Content-Length in any case |
| HttpTolerance.StatusLineRead | zerom2m/src/http/http_codec.cpp:540-556 | a status line needs a version that starts with HTTP/ and a whole number |
| HttpTolerance.OddFieldLine | zerom2m/src/http/http_codec.cpp:558-585 | a line without a colon is passed over, a length that is no number refuses the response |
| HttpTolerance.BodyToTheEnd | zerom2m/src/http/http_codec.cpp:594-621 | without an announced length the body is all the rest, up to 4096 bytes |
| HttpTolerance.EmptyBlock | zerom2m/src/http/http_codec.cpp:491-538 | a header block without a line stands for status 200 |
| HttpTolerance.LfResponse | zerom2m/src/http/http_codec.cpp:510-518 | a response whose lines end in LF alone is read alike, unless CR LF CR LF occurs in it |
| HttpTolerance.MethodRead | zerom2m/src/onem2m/bindings/http/http_adapter.cpp:513-527 | the operation each method stands for |
| HttpTolerance.TypeParameterEnds | zerom2m/src/onem2m/bindings/http/http_adapter.cpp:215-224 | the type in a Content-Type may be followed by a blank but nothing else |
| HttpTolerance.TypeParameterAbsent | zerom2m/src/onem2m/bindings/http/http_adapter.cpp:212-224 | without ty= among its parameters a Content-Type gives no type |
| HttpTolerance.LengthNames | zerom2m/src/http/http_daemon.cpp:222-231 | the two spellings of the announcement the worker looks for |
| HttpTolerance.AwaitedNumber | zerom2m/src/http/http_daemon.cpp:222-231 | the length awaited is the number after the announcement, of either spelling |
| HttpTolerance.AwaitedNegative | zerom2m/src/http/http_daemon.cpp:222-231 | a negative number is awaited as the size_t it wraps to |
| HttpDaemon.Socket.Receive | zerom2m/src/http/http_daemon.cpp:200-246 | some of the next piece is delivered into the buffer and nothing else changes |
| HttpDaemon.AwaitBody | zerom2m/src/http/http_daemon.cpp:234-259 | what has been received is always header block plus part of the body, and the loop stops at the awaited length, a full buffer or the end of the stream |
| HttpDaemon.Worker | zerom2m/src/http/http_daemon.cpp:185-339 | what becomes of a connection depends only on the stream, how much the first receive delivers, and the buffer's size |
| HttpDaemon.HeaderOfStream | zerom2m/src/http/http_daemon.cpp:213-220 | a first piece that holds the stream's header block shows the same one |
| HttpDaemon.PiecesDoNotMatter | zerom2m/src/http/http_daemon.cpp:200-339 | a message whose header arrives first is handed over whole, however the rest is cut into pieces, if and only if the buffer has a byte more than the message |
| HttpDaemon.AwaitedIsBodyLength | zerom2m/src/http/http_daemon.cpp:222-231 | the awaited length is the length of the body the parser cuts off, when it is announced once |
| HttpDaemon.WorkerFeedsParser | zerom2m/src/http/http_daemon.cpp:200-339 | for a serialised request, whatever its pieces and whatever follows it, bytes are handed over if and only if one byte is left for the NUL, and they parse back to the request |

## Left out

- JSON numbers are exact reals; the printers are modelled for whole numbers up to 10^15, where the C code prints integers; fractions printed with `%f` and infinities are not.
- JSON trees are values: ownership, `new`, `delete` and the accessor methods are not modelled.
- Integer widths: positions, counters, `s64` sums and the numbers read by `atoi` and `strtoul` stay inside their C types; the id counter stays a 32-bit int.
- HttpRequestCodec.ParseRequest: a Content-Length that reads as negative is rejected. The C code casts it to `size_t`; its sum with the body's offset wraps around (http_codec.cpp:353), so a value down to minus that offset passes the check, and the copy that follows has no defined result. Any lower value is rejected there too.
- HttpRequests.Parse: the function ParseRequest is proved against, with the same exception.
- HttpDaemon.Socket.Receive: the second receive loop (http_daemon.cpp:305-333) tries again after a timeout ended the first; the stream here delivers nothing after its first empty receive.
- HttpDaemon.Worker: where the C code would write past its buffer the model stops with `NoRoom`; a header number outside `int` is not modelled.
- JsonDocument.ParseDouble: computes with exact reals; the rounding of doubles is not modelled.
- SQLite, its file system and transactions: only the table operations are kept, and they succeed; of the type-table rows whose resource was replaced only those of `ae` are kept, the others are never read again because loads go by the type of the current row.
- A subscription's verification request and the choice of remote URLs are a parameter (`OneM2M.Net`); `DeliverTarget`'s delivery is a trace of attempts.
- Resource attributes that decide nothing in the modelled code (times, announcements, most columns) and the JSON codec that maps them.
- A content instance that is submitted with its own resource id: the first capacity check at onem2m_service.cpp:1048-1053 is modelled with the empty id.
- Retrieve targets shorter than three characters, where the C code reads before the text, count as having no slash there.
- OneM2M.Retrieve: its branches read the tables only, so it is a function and has no method of its own.
- HttpResponses.Serialize: the reason phrase is a parameter in place of the status table.
- HttpAdapter.DecodeRequest: query parameters, filter criteria and the headers that encodeRequest never writes; the body stays text.
- Sockets beyond their receive calls, the HTTP client, the kernel, tasks, the index page, configuration parsing and status tables.
- Update, Delete and Notify requests, time series, and the dead code at onem2m_service.cpp:1482-1503.
