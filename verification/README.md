# Verification of the WIMSE message-signature, identifier and DER cores

This project models three parts of `wimsey`, a Rust implementation of the WIMSE
workload-identity drafts, and proves what they promise:

- **HTTP message signatures** (`crates/httpsig`): the structured-field printer
  and parser of RFC 8941 text, the signature base of RFC 9421 section 2.5,
  selection of the WIMSE signature among several, the profile rules of
  Section 3 of draft-ietf-wimse-http-signature-08, and `verify`.
- **Workload identifiers** (`crates/identifier`): the `spiffe` and `wimse` URI
  parser, against an independent definition of RFC 3986 normalization.
- **The ECDSA signature codec** (`crates/mtls/src/wic.rs`): fixed width to DER
  and back.

The command line validators of `crates/cli/src/httpsig.rs` are modelled to the
extent that they establish what the signature proofs rely on.

`dafny verify dfyconfig.toml` verifies all of it with Dafny 4.11.

## How the model is organised

Scanning and building loops are methods with the program's own state variables
(`start`, `in_quotes`, `escaped`, `depth`, the index that advances by one or
three, the cursor of the DER decoder). Each is proved equal to a specification
function, and the properties are lemmas about those functions. Early-return
checks are functions over values.

| module | content |
|---|---|
| `Text`, `Bytes`, `Wrappers`, `Errors` | library text operations, octets, results, failures |
| `Scanner`, `SfStrings`, `Dictionary` | quote-aware scanning, quoted strings, dictionary fields |
| `Components`, `Params`, `ParamsRoundTrip`, `Members` | covered components, message values, parameters, one field member |
| `Selection`, `SignatureBase`, `Verification`, `RequiredComponents` | choosing a member, the signed text, signing, verifying, the profile |
| `BaseAlignment` | reading a signed text back against the list it was printed from, whatever the header names hold |
| `Policy`, `Guarantees`, `Completeness`, `EndToEnd` | time and configuration, what acceptance guarantees, that fresh signatures are accepted, and for which messages |
| `ProfileBinding` | under the profile, an accepted message is a signed one |
| `ComponentValues`, `ParameterText`, `WireFormat`, `TextRules` | values, names and texts on the wire, with the literals of the standards |
| `SelectionRules`, `Verdicts` | which member is selected, and which failure is reported |
| `Identifiers`, `Normalizer`, `IdentifierProofs` | the identifier parser and RFC 3986 normalization |
| `IdentifierText`, `NormalizerText` | schemes, character sets, limits, failures and normal forms, written out |
| `DerCodec` | the DER codec |
| `Cli` | the command line validators |

The main results are `Guarantees.TamperEvidence`,
`Guarantees.RequiredValuesAreSigned`, `Guarantees.AcceptedMeans`,
`Verdicts.VerdictFollows`, `Verdicts.ForgedLearnsNothing`, `SelectionRules.SelectionIsExact`,
`EndToEnd.FreshBindsValues`, `ProfileBinding.AcceptedIsSigned`,
`ProfileBinding.FreshBindsMessage`, `BaseAlignment.SameBaseSignedAs`,
`Members.MemberRoundTrip`, `SignatureBase.BaseInjective`, `Selection.SelectsTagged`,
`Completeness.RequestProfileIsComplete`, `Completeness.OtherHopsAreIgnored`,
`Policy.AcceptedClocks`, `EndToEnd.LaxerIsExact`, `Guarantees.UncoveredFieldIsIgnored`,
`IdentifierProofs.ParserIsExact`, `DerCodec.EncodeOfDecode` and
`DerCodec.IntegerIsExact`.

The signature scheme and base64 are function-valued parameters. Nothing is
assumed of them except in a lemma's own precondition: `Guarantees.OnlySigned`
(the received bytes, under this key, are a signature for no texts but those that
were signed), `EndToEnd.BindsTo` (the same for one text), `Completeness.Matches`
(the key accepts what its partner signs) and `Completeness.Lawful` (decoding
undoes encoding, and encoded text holds no comma, quote, parenthesis, colon or
white space). `EndToEnd.FreshIsOnlySigned` derives the first from the second for
freshly signed fields, and `EndToEnd.HypothesesAreMet` shows that all of them can
be met together.

Six properties hold only under a condition. Each is stated with it, and with an
input that fails off it:

- A printed component identifier reads back exactly when its header name is
  lowercase and does not start with `@` (`Components.QuotedIdRoundTrip`,
  `Components.NamesNotKept`).
- An accepted message has the signer's own components exactly when none of the
  signer's header names starts with `@` (`Guarantees.TamperEvidence`,
  `EndToEnd.TakenNameMisleads`): signing accepts the header `@method`, whose
  line is also the line of the method.
- Relaxing a configuration keeps every acceptance exactly when it does not
  configure the first audience off the request profile (`EndToEnd.LaxerIsExact`,
  `EndToEnd.FirstAudienceRejects`).
- `@request-target` fixes path and query between requests whose paths hold no
  `?` (`Components.RequestTargetIsExact`), and among all requests exactly when
  there is no query and no `?` behind the first character of the path
  (`Components.TargetFixesRequest`).
- A member that parses has the WIMSE tag exactly when the last part that sets its
  tag does so (`Selection.ParsedTagIsFound`). The test that selects members
  reacts to any such part, so a member of another hop that sets the WIMSE tag and
  then another one makes the selection ambiguous
  (`Selection.RepeatedTagIsAmbiguous`); where the tag is set once at most the two
  agree (`Selection.SingleTagIsFound`).
- Re-encoding a decoded DER signature gives the input back exactly when both
  INTEGERs are non-negative, which the decoder does not ask for
  (`DerCodec.EncodeOfDecode`, `DerCodec.NegativeIsNotKept`).

Where the documentation of `Component::from_quoted_id` says that identifiers
carrying parameters are unsupported, the code accepts `;req` and any other text
between the quotes that does not start with `@`; the model follows the code.

## Model

| member | source | states |
|---|---|---|
| Guarantees.TamperEvidence | crates/httpsig/src/signature.rs:797-901 | if the received bytes are a signature for no texts but the bases of known signings, an accepted message has the parameters and identifiers of one of them and the same value for every covered component, whatever components were signed; the components are the signer's own exactly when no header name is taken for a derived component |
| Guarantees.RequiredValuesAreSigned | crates/httpsig/src/signature.rs:840-844 | where no signed header name starts with `@`, there is one signing that gives every component the recipient requires the value it has in the accepted message, header names compared without case |
| ProfileBinding.AcceptedIsSigned | crates/httpsig/src/signature.rs:92-98 | if what was signed and what is required are the components that the profile asks of each message, an accepted request or response has the method, target, status and listed fields of one of the signed ones, absent fields included |
| ProfileBinding.FreshBindsMessage | crates/httpsig/src/signature.rs:272-324 | a fresh profile signature is accepted for a message exactly when that message is the signed one under the profile and the recipient's rules are obeyed |
| ProfileBinding.CoveredMeansSame | crates/httpsig/src/signature.rs:272-324 | equal values of all components required of the signed message, with all components required of the received one covered, hold exactly of messages that are the same under the profile |
| Guarantees.AcceptedMeans | crates/httpsig/src/signature.rs:797-901 | acceptance is exactly: a member is selected, its signature parses, every component has a one-line value, the key accepts the base, and the configuration's rules hold (profile parameters, no path or query on a CONNECT, accepted algorithm and `alg`, required components, audience, request nonce, time window); both profiles at once accept nothing |
| Verdicts.VerdictFollows | crates/httpsig/src/signature.rs:797-901 | the result of every verification is the first failure in one fixed order: selection, signature bytes, a table of profile and algorithm rules, the base, the key, a table of coverage, audience, nonce and time rules |
| Verdicts.ForgedLearnsNothing | crates/httpsig/src/signature.rs:845-858 | if the key accepts no text with the received bytes, the result is the same for all audiences, nonces, clocks, ages and required components |
| Verdicts.ForgedIsInvalid | crates/httpsig/src/signature.rs:835-838 | and it is an invalid signature once the fields parse, the early rules hold and the base exists |
| Verdicts.ProfileFollows | crates/httpsig/src/signature.rs:182-264 | the profile checks report the first broken rule of a table with the literal tag, method and component names |
| Verdicts.AlgorithmFollows | crates/httpsig/src/signature.rs:822-832 | a key outside the accepted algorithms, then an `alg` that is not the key's registered name, is reported |
| Verdicts.TimeFollows | crates/httpsig/src/signature.rs:867-894 | the time checks report the first broken rule of a table over unbounded integers |
| Guarantees.AcceptedTagIsUnique | crates/httpsig/src/signature.rs:728-760 | acceptance under a profile means exactly one member of the field carries the WIMSE tag, and it is the one verified |
| Guarantees.UncoveredIsIgnored | crates/httpsig/src/signature.rs:797-901 | two messages that agree on the covered components and on the method the profile looks up get the same verdict |
| Guarantees.UncoveredFieldIsIgnored | crates/httpsig/src/message.rs:246-256 | inserting, anywhere in the message or the answered request, a field no covered header names leaves the verdict unchanged |
| SignatureBase.SignatureBaseFromParamsStr | crates/httpsig/src/signature.rs:414-441 | the loop that appends lines computes the base text, or the first failure |
| SignatureBase.BaseInjective | crates/httpsig/src/signature.rs:414-441 | equal bases over well-formed components have equal parameter strings, equal components in order and equal values line by line |
| BaseAlignment.SameBaseSignedAs | crates/httpsig/src/signature.rs:657-683 | a member parsed from its verbatim text, over the base of any printed list, has the printed text, parameters, identifiers and values, even if header names hold quotes, parentheses, colons or spaces |
| BaseAlignment.WordsAreIds | crates/httpsig/src/signature.rs:665-672 | as many words as identifiers, each alike to its identifier up to a `:`, are the identifiers, and the inner list closes where it was printed to close |
| BaseAlignment.EqualLinesAgree | crates/httpsig/src/signature.rs:428-438 | equal lines have equal counts, identifiers that differ at most behind a `:`, and equal values behind equal identifiers |
| BaseAlignment.ReadsAsItself | crates/httpsig/src/message.rs:95-117 | components read back under the same identifiers are the printed ones exactly when no header name starts with `@` |
| SignatureBase.BaseFixesText | crates/httpsig/src/signature.rs:419-440 | equal bases have equal parameter strings and equal lines above, whatever the component identifiers hold, because no CR or LF gets in |
| SignatureBase.LinesFixValues | crates/httpsig/src/signature.rs:428-438 | equal lines over one component list have equal values |
| SignatureBase.LinesExist | crates/httpsig/src/signature.rs:428-434 | the component lines exist exactly when every component has a value and no value holds a CR or LF |
| WireFormat.BaseLines | crates/httpsig/src/signature.rs:414-441 | the base, line by line: the parameters last, each component's identifier, a colon, a space and its value above, or the first failure |
| WireFormat.RequestBaseWrittenOut | crates/httpsig/src/signature.rs:414-441 | the base of a request's method, path and query, written out |
| WireFormat.FieldsWrittenOut | crates/httpsig/src/signature.rs:464-480 | both fields that signing prints, written out |
| Members.MemberRoundTrip | crates/httpsig/src/signature.rs:371-412 | printing any well-formed components and any parameters, whatever their strings hold, and parsing the member returns exactly them and the verbatim text |
| Members.ParseInputMember | crates/httpsig/src/signature.rs:657-683 | the parsing method computes the member of a field value, or its failure |
| Members.MemberOfText | crates/httpsig/src/signature.rs:677-682 | components and parameters of a parsed member are a function of its trimmed verbatim text |
| Members.PrintedIsSealed | crates/httpsig/src/signature.rs:471-480 | a printed member under a structured-field key survives in a dictionary: no delimiter in it is visible at top level |
| Params.SerializeParamsValue | crates/httpsig/src/signature.rs:371-412 | appending the present parameters in order builds the printed inner list and parameters |
| Params.ParseParams | crates/httpsig/src/signature.rs:595-630 | the parameters record ends as the fold of all parts, or stops at the first bad part with the earlier parts written |
| ParameterText.ParamsWrittenOut | crates/httpsig/src/signature.rs:371-412 | the printed parameters, in order and under their literal names |
| ParameterText.NumbersAreRead | crates/httpsig/src/signature.rs:612-617 | `created=` and `expires=` set those times and nothing else |
| ParameterText.TextsAreRead | crates/httpsig/src/signature.rs:618-624 | each text parameter under its literal name sets that parameter and nothing else |
| ParameterText.FlagsAreRead | crates/httpsig/src/signature.rs:601-609 | the Boolean is true when bare or `?1`, and false when `?0` |
| ParameterText.PartIsTrimmed | crates/httpsig/src/signature.rs:596-611 | a part is read by its trimmed name and value, in any spacing |
| ParameterText.UnknownIsIgnored | crates/httpsig/src/signature.rs:625-627 | a parameter of any other name changes nothing |
| ParameterText.BareIsIgnored | crates/httpsig/src/signature.rs:601-609 | a name without a value changes nothing but for the Boolean |
| ParameterText.BadNumbersFail | crates/httpsig/src/signature.rs:612-645 | times that are no 64-bit numbers and Booleans that are neither `?0` nor `?1` fail |
| ParameterText.BadStringsFail | crates/httpsig/src/signature.rs:534-552 | text parameters that are not in quotes fail |
| ParamsRoundTrip.ApplyPartText | crates/httpsig/src/signature.rs:595-630 | reading one printed parameter sets that parameter to the printed value and nothing else |
| ParamsRoundTrip.PartsRoundTrip | crates/httpsig/src/signature.rs:378-411 | reading all printed parameters from an empty record gives the record back |
| ParamsRoundTrip.CutPartsText | crates/httpsig/src/signature.rs:574-593 | cutting the printed parameters at unquoted semicolons gives exactly the printed parts |
| ParamsRoundTrip.PartsTextOneLine | crates/httpsig/src/signature.rs:419-426 | the printed parameters hold a CR or LF exactly when some string value does |
| Text.DecimalRoundTrip | crates/httpsig/src/signature.rs:641-645 | printing a 64-bit time and parsing it back is the identity |
| TextRules.DigitsAreRead | crates/httpsig/src/signature.rs:641-645 | digits are read as the number they name, if it is below 2^64 |
| TextRules.PlusIsPassed | crates/httpsig/src/signature.rs:641-645 | one leading plus sign is passed over |
| TextRules.StrayCharacters | crates/httpsig/src/signature.rs:641-645 | nothing, or any other character among the digits, is no number |
| TextRules.DigitsWrittenOut | crates/httpsig/src/signature.rs:378-383 | how numbers are printed, written out |
| TextRules.CaseWrittenOut | crates/httpsig/src/message.rs:67-69 | only the letters `A` to `Z` change case, to the ones 32 above |
| TextRules.AsciiSpace | crates/httpsig/src/signature.rs:596-611 | the ASCII characters that trimming and word splitting take for white space |
| TextRules.WideSpace | crates/httpsig/src/signature.rs:596-611 | the white space beyond ASCII, and characters that are none |
| TextRules.BreaksFound | crates/httpsig/src/signature.rs:422-433 | a text is on one line exactly when its parts are and no CR and no LF is between them |
| TextRules.WordsCut | crates/httpsig/src/signature.rs:670-672 | the inner list is cut at white space of any kind and length |
| SfStrings.SfString | crates/httpsig/src/signature.rs:358-369 | the escaping loop builds the quoted string of its argument |
| SfStrings.ParseSfString | crates/httpsig/src/signature.rs:534-552 | the unescaping loop computes the value of a quoted string, or its failure |
| SfStrings.StringRoundTrip | crates/httpsig/src/signature.rs:358-369 | unquoting undoes quoting for every text |
| SfStrings.StringTextIsQuiet | crates/httpsig/src/signature.rs:556-572 | no delimiter inside a quoted string is visible to the scanners, which are outside it again at its end |
| Scanner.FindUnquoted | crates/httpsig/src/signature.rs:556-572 | the scan with its two flags finds the first stop of the quote automaton |
| Scanner.FirstStopIsFirst | crates/httpsig/src/signature.rs:556-572 | the scan reports exactly the first target character that follows only closed strings, and nothing if there is none |
| Scanner.SplitUnquotedSemicolons | crates/httpsig/src/signature.rs:574-593 | the one-pass splitter equals cutting at the first unquoted semicolon and starting afresh behind it |
| Scanner.SemicolonPartsRejoin | crates/httpsig/src/signature.rs:574-593 | the parts rejoined with `;` are the input, and no part holds an unquoted `;` |
| Scanner.CutOfJoin | crates/httpsig/src/signature.rs:574-593 | splitting undoes joining parts whose strings are closed |
| Dictionary.SplitDictionary | crates/httpsig/src/signature.rs:501-532 | the one-pass splitter with its quote, escape and depth state computes the members, the first malformed member's failure, or the first duplicate label |
| Dictionary.FirstCommaIsFirst | crates/httpsig/src/signature.rs:507-522 | the scan stops exactly at the first comma outside every string and inner list |
| Dictionary.AcceptedDictionary | crates/httpsig/src/signature.rs:501-532 | on any accepted field the raw slices rejoined with `,` are the field, none can be cut again, and the labels are pairwise distinct |
| Dictionary.SplitUndoesJoin | crates/httpsig/src/signature.rs:483-532 | splitting undoes joining any distinctly labeled sealed members with a comma and a space, in order |
| WireFormat.MemberIsTrimmed | crates/httpsig/src/signature.rs:483-493 | a member is cut at its first `=`, with the spacing of label and value trimmed |
| WireFormat.NoMember | crates/httpsig/src/signature.rs:483-493 | a member without `=`, or without a label, fails as such |
| WireFormat.SignatureWrittenOut | crates/httpsig/src/signature.rs:686-703 | the signature is that of the member with the label, or a label mismatch |
| WireFormat.BytesWrittenOut | crates/httpsig/src/signature.rs:686-703 | a byte sequence between colons is 64 decoded octets, or malformed |
| WireFormat.NoByteSequence | crates/httpsig/src/signature.rs:691-695 | a signature that is not between colons fails as such |
| Selection.TagOfPrinted | crates/httpsig/src/signature.rs:710-721 | a printed member has the WIMSE tag exactly when its tag parameter is the WIMSE tag, even if another value spells one out in its quotes |
| Selection.ParsedTagIsFound | crates/httpsig/src/signature.rs:595-630 | a member that parses has the WIMSE tag exactly when its last tag part is the WIMSE one, and is then found by the lenient test, which reacts to any such part |
| Selection.ParsedTagIsLast | crates/httpsig/src/signature.rs:595-630 | the tag of a member that parses is the one of its last tag part, if any |
| Selection.SingleTagIsFound | crates/httpsig/src/signature.rs:710-721 | where the tag is set once at most, the lenient test and the parser agree |
| Selection.LastTagWins | crates/httpsig/src/signature.rs:710-721 | of a tag set twice the second is read, and the lenient test reacts to either |
| Selection.RepeatedTagIsAmbiguous | crates/httpsig/src/signature.rs:737-743 | a foreign member that sets the WIMSE tag and then another one makes the selection ambiguous |
| Selection.SelectsTagged | crates/httpsig/src/signature.rs:737-743 | among any other sealed untagged members, in any order, the profile selects exactly the tagged one with its own label, components, parameters and text |
| SelectionRules.SelectionIsExact | crates/httpsig/src/signature.rs:728-760 | for every accepted field and configuration, the one member that is meant is parsed, and where none is, the failure is the one that says why |
| SelectionRules.LabelSelects | crates/httpsig/src/signature.rs:744-751 | without a profile, the configured label picks its member out of any others, in any order |
| SelectionRules.WrongLabelSelectsNothing | crates/httpsig/src/signature.rs:744-758 | without a profile, an absent label, or no label for several members, is a label mismatch |
| SelectionRules.LoneIsSelected | crates/httpsig/src/signature.rs:733-736 | without a profile and label, a lone member is selected |
| SelectionRules.BadFieldFails | crates/httpsig/src/signature.rs:732 | a field that is no dictionary fails selection as such |
| SelectionRules.UnclosedIsUntagged | crates/httpsig/src/signature.rs:710-714 | a value whose list never closes does not carry the tag |
| SelectionRules.TagPartWrittenOut | crates/httpsig/src/signature.rs:715-721 | a `tag` parameter, in any spacing, is the WIMSE one exactly when its value is the literal tag |
| SelectionRules.OtherNameIsNoTag | crates/httpsig/src/signature.rs:715-721 | a parameter of another name is no tag, whatever its value |
| Verification.ProfilesAreExact | crates/httpsig/src/signature.rs:182-264 | the two rule lists accept exactly the parameters with every mandatory name, no forbidden name and the WIMSE tag |
| RequiredComponents.RequestComponents | crates/httpsig/src/signature.rs:272-294 | the method pushes the targets and the present fields of a request |
| RequiredComponents.ResponseComponents | crates/httpsig/src/signature.rs:304-324 | the method pushes the targets and the present fields of a response |
| RequiredComponents.PresentIsExact | crates/httpsig/src/signature.rs:278-292 | a header is required exactly when the profile lists it and the message carries it, in any case |
| WireFormat.RequestListWrittenOut | crates/httpsig/src/signature.rs:272-294 | the components required of a request, written out |
| WireFormat.ResponseListWrittenOut | crates/httpsig/src/signature.rs:304-324 | the components required of a response, written out |
| RequiredComponents.RequiredOnRequestFits | crates/httpsig/src/signature.rs:272-294 | the components required of a request are well formed, all have values, and pass the CONNECT rule |
| RequiredComponents.RequiredOnResponseFits | crates/httpsig/src/signature.rs:304-356 | the same for the components required of a response |
| Policy.TimeIsExact | crates/httpsig/src/signature.rs:867-894 | saturating 64-bit arithmetic gives the verdict of the time rules over unbounded integers |
| Policy.AcceptedClocks | crates/httpsig/src/signature.rs:878-894 | with `created` and `expires` present and all else in order, the accepted clocks are exactly the integers of the window |
| Policy.LaxerAccepts | crates/httpsig/src/signature.rs:840-894 | more leeway or age, more audiences or fewer requirements give the same result, or, exactly where a first audience is not met, an audience mismatch |
| Completeness.SigningSucceeds | crates/httpsig/src/signature.rs:464-480 | signing succeeds exactly when every component has a value and no value and no parameter holds a CR or LF |
| Completeness.SignedFieldsAreJudged | crates/httpsig/src/signature.rs:686-703 | both fields that signing prints parse back to the signer's member and bytes, so only the checks decide |
| Completeness.FreshSignature | crates/httpsig/src/signature.rs:797-901 | a fresh signature is accepted exactly when its parameters and components pass the checks, and is reported as signed |
| EndToEnd.FreshIsOnlySigned | crates/httpsig/src/signature.rs:464-480 | a fresh signature whose bytes verify for no other text meets the hypothesis of tamper evidence |
| EndToEnd.FreshBindsValues | crates/httpsig/src/signature.rs:797-901 | such a signature is accepted for a message exactly when the message has all the signed values and the recipient's rules are obeyed |
| EndToEnd.HypothesesAreMet | crates/httpsig/src/signature.rs:797-901 | every signing that obeys a configuration has keys and an encoding under which it is accepted and the hypotheses hold |
| EndToEnd.TakenNameMisleads | crates/httpsig/src/message.rs:74-92 | signing the header `@method` of a POST gives the base of the method of a GET |
| EndToEnd.LaxerIsExact | crates/httpsig/src/signature.rs:851-858 | a laxer configuration keeps all acceptances exactly when it starts no audience check, for any stricter one that accepts some fresh signature |
| EndToEnd.FirstAudienceRejects | crates/httpsig/src/signature.rs:851-858 | a signature accepted without audiences and rejected with the first one |
| Completeness.RequestProfileIsComplete | crates/httpsig/src/signature.rs:272-294 | signing a request's required components under conforming parameters succeeds and is accepted under the request profile |
| Completeness.ResponseProfileIsComplete | crates/httpsig/src/signature.rs:304-324 | the same for a response, the request it answers and the response profile |
| Completeness.OtherHopsAreIgnored | crates/httpsig/src/signature.rs:710-760 | members that other hops add to both fields, in any order, do not change the verdict under a profile |
| Components.QuotedIdRoundTrip | crates/httpsig/src/message.rs:74-117 | a printed identifier reads back at any `;req` depth exactly when its header name is lowercase and does not start with `@` |
| Components.NamesNotKept | crates/httpsig/src/message.rs:74-117 | the header `Date` reads back as `date`, the header `@method` as the method, and the header `@date` not at all |
| Components.AcceptedIdPrintsBack | crates/httpsig/src/message.rs:95-117 | an accepted identifier prints back as itself with its header name in lowercase |
| Components.SameIsIdentity | crates/httpsig/src/message.rs:46-60 | on well-formed components the program's equality is identity |
| Components.SameHasSameValue | crates/httpsig/src/message.rs:46-60 | components the program calls equal have the same value in every message |
| ComponentValues.SameIsFolded | crates/httpsig/src/message.rs:46-60 | the program's equality ignores the case of header names, at any depth, and nothing else |
| ComponentValues.OneField | crates/httpsig/src/message.rs:246-256 | one field gives its trimmed value under its own name in any case, and is missing under another |
| ComponentValues.FieldsCombine | crates/httpsig/src/message.rs:246-256 | the values of two lists of fields follow each other behind a comma and a space, and nothing is missing |
| ComponentValues.RequestValues | crates/httpsig/src/message.rs:144-179 | the value of every component of a request |
| ComponentValues.ResponseValues | crates/httpsig/src/message.rs:232-243 | on a response, `;req` reads the answered request, fields included, and all else the response |
| ComponentValues.IdentifiersWrittenOut | crates/httpsig/src/message.rs:74-92 | the identifiers, written out |
| ComponentValues.UnquotedIsRefused | crates/httpsig/src/message.rs:95-104 | a token that is not in quotes names no component |
| Components.RequestTargetIsExact | crates/httpsig/src/message.rs:163-179 | equal targets have equal path and query, an absent query kept apart from an empty one, unless one of the paths holds a `?` |
| Components.TargetFixesRequest | crates/httpsig/src/message.rs:163-179 | a target belongs to one path and query only exactly when the request has no query and its path no `?` behind the first character |
| IdentifierProofs.ParserIsExact | crates/identifier/src/lib.rs:177-220 | the parser accepts a text exactly when it is a well-formed identifier, in any case and escaping, and is its own RFC 3986 normal form |
| IdentifierText.SchemeIsWrittenOut | crates/identifier/src/lib.rs:73-87 | an accepted text has the scheme whose literal prefix it starts with |
| IdentifierText.SpiffeIsPlain | crates/identifier/src/lib.rs:300-308 | behind `spiffe://` there are letters, digits, `.`, `-`, `_` and `/` only |
| IdentifierText.WimseTakesPchars | crates/identifier/src/lib.rs:310-362 | behind `wimse://` and a host, any segment of `pchar`s but the dots is accepted |
| IdentifierText.FailuresInOrder | crates/identifier/src/lib.rs:177-220 | what is wrong with an identifier, in the order in which it is reported, with the literal limits |
| IdentifierText.LongFails | crates/identifier/src/lib.rs:177-180 | an identifier is too long exactly when it has more than 2048 bytes |
| IdentifierText.HostCharsWrittenOut | crates/identifier/src/lib.rs:257-308 | the characters of trust domains and `spiffe` paths, written out |
| IdentifierText.PcharsWrittenOut | crates/identifier/src/lib.rs:375-388 | the characters of `wimse` paths, written out |
| IdentifierText.EscapesWrittenOut | crates/identifier/src/lib.rs:327-362 | uppercase escapes of reserved characters pass, all others fail with their text |
| IdentifierText.HexWrittenOut | crates/identifier/src/lib.rs:364-373 | the hex digits and their values, written out |
| IdentifierText.OtherSchemesFail | crates/identifier/src/lib.rs:177-185 | any other start is an unsupported scheme |
| IdentifierText.BytesOfText | crates/identifier/src/lib.rs:177-180 | lengths are counted in bytes, one for each ASCII character and up to four beyond |
| IdentifierText.BytesOfOne | crates/identifier/src/lib.rs:177-180 | where a character starts to take two, three and four bytes |
| IdentifierText.SegmentFailures | crates/identifier/src/lib.rs:277-298 | the first bad segment is reported, empty ones and dots before their characters |
| NormalizerText.SegmentAndDotsCancel | crates/identifier/src/lib.rs:286-291 | a segment and the `..` behind it cancel |
| NormalizerText.DotVanishes | crates/identifier/src/lib.rs:286-291 | a `.` segment vanishes |
| NormalizerText.EscapesNormalized | crates/identifier/src/lib.rs:316-326 | an escape of an unreserved character is that character, any other is put in uppercase |
| NormalizerText.OthersStay | crates/identifier/src/lib.rs:310-326 | any other character stays as it is |
| NormalizerText.RelativeDotsDrop | crates/identifier/src/lib.rs:286-291 | leading dots of a relative path are dropped |
| NormalizerText.PartsNormalized | crates/identifier/src/lib.rs:21-43 | scheme and authority go to lowercase, and the path is normalized |
| IdentifierProofs.OneSpelling | crates/identifier/src/lib.rs:21-43 | two accepted identifiers with equal normal forms are equal as texts |
| IdentifierProofs.ComposeThenParse | crates/identifier/src/lib.rs:222-254 | valid scheme, trust domain and segments compose to a text that parses to exactly those parts |
| IdentifierProofs.ParseThenCompose | crates/identifier/src/lib.rs:222-254 | an accepted text decomposes into valid parts, its origin and path make it up, and re-parsing gives the same value |
| IdentifierProofs.PcharExact | crates/identifier/src/lib.rs:327-362 | the segment scan accepts exactly the pchar segments that escape normalization leaves alone |
| IdentifierProofs.TrustDomainExact | crates/identifier/src/lib.rs:257-275 | a trust domain is accepted exactly when it is a host in lowercase within its scheme's length |
| IdentifierProofs.PathNormal | crates/identifier/src/lib.rs:277-298 | a path is its own normal form exactly when its segments are and none is a dot segment |
| IdentifierProofs.RemovalFixesPath | crates/identifier/src/lib.rs:286-291 | the dot-segment removal loop leaves a path alone exactly when no segment is `.` or `..` |
| Normalizer.RemovalShrinks | crates/identifier/src/lib.rs:286-291 | the removal loop never lengthens text, and text whose length it keeps it leaves alone |
| Identifiers.ValidatePcharSegment | crates/identifier/src/lib.rs:327-362 | the index loop, stepping by one or three, computes the segment's verdict and its exact error |
| Identifiers.ValidatePath | crates/identifier/src/lib.rs:277-298 | the loop over segments computes the path's verdict and its first error |
| Identifiers.ValidateTrustDomain | crates/identifier/src/lib.rs:257-275 | the character loop computes the trust domain's verdict and its first error |
| Identifiers.ValidateSpiffeSegment | crates/identifier/src/lib.rs:301-308 | the character loop computes the segment's verdict and its first error |
| DerCodec.EcdsaSignatureToDer | crates/mtls/src/wic.rs:75-101 | the encoder builds the DER sequence of the two halves |
| DerCodec.DerOf | crates/mtls/src/wic.rs:95-100 | the encoded length is between 8 and 72 octets |
| DerCodec.DerWrittenOut | crates/mtls/src/wic.rs:75-101 | the encoded signature octet by octet, with its literal tags, each INTEGER minimal and of the value of its half |
| DerCodec.OtherFramesAreRefused | crates/mtls/src/wic.rs:104-143 | an accepted input has the literal tags, and lengths that add up to its own |
| DerCodec.EcdsaSignatureFromDer | crates/mtls/src/wic.rs:104-143 | the decoder with its cursor and array returns the specified 64 octets, or refuses exactly when there are none |
| DerCodec.Cursor.Integer | crates/mtls/src/wic.rs:105-123 | reading one INTEGER returns its magnitude and moves the cursor behind it |
| DerCodec.DecodeOfEncode | crates/mtls/src/wic.rs:75-143 | decoding undoes encoding on every 64-octet signature |
| DerCodec.EncodeOfDecode | crates/mtls/src/wic.rs:104-143 | encoding undoes decoding exactly when both INTEGERs are non-negative, and re-encoding any accepted input decodes to the same signature |
| DerCodec.NegativeIsNotKept | crates/mtls/src/wic.rs:104-143 | a negative INTEGER is accepted and re-encoded as another, positive one |
| DerCodec.AcceptedShape | crates/mtls/src/wic.rs:125-137 | an accepted input is a sequence of two contents of at most 33 octets, with a body of at most 70 |
| DerCodec.IntegerIsExact | crates/mtls/src/wic.rs:76-93 | each emitted INTEGER is minimal and, as a signed number, is its half as an unsigned one |
| DerCodec.MinimalIsUnique | crates/mtls/src/wic.rs:77-83 | a non-negative number has one minimal encoding only |
| DerCodec.MagnitudeIsExact | crates/mtls/src/wic.rs:105-123 | the octets decoded from an INTEGER, read unsigned, are its signed value exactly when its first octet is below 128 |
| DerCodec.DecodedIsExact | crates/mtls/src/wic.rs:104-143 | each half of a decoded signature is the encoded number exactly when that number is not negative |
| Cli.LabelsAreKeys | crates/cli/src/httpsig.rs:226-240 | the label validator accepts exactly the structured-field keys, trimmed |
| Cli.FieldNameCharsWrittenOut | crates/cli/src/httpsig.rs:139-161 | the characters of a header name, written out |
| Cli.TokensAreWellFormed | crates/cli/src/httpsig.rs:242-272 | every accepted component list is well formed |
| Cli.DerivedTokens | crates/cli/src/httpsig.rs:242-251 | the four derived components by name, in any case and spacing; any other is refused |
| Cli.HeaderTokens | crates/cli/src/httpsig.rs:252-258 | any other token is a field name, taken in lowercase, or refused |
| Cli.ListsAreCut | crates/cli/src/httpsig.rs:261-272 | a list is read token by token at its commas; blank tokens do not count, a bad one fails it |
| Cli.BlankListIsEmpty | crates/cli/src/httpsig.rs:261-272 | a blank list is refused |
| Cli.FirstUncoveredIsNamed | crates/cli/src/httpsig.rs:279-286 | the coverage check names the first component that is not covered |
| Cli.AcceptedInputReadsBack | crates/cli/src/httpsig.rs:226-272 | a signature under an accepted label and list is one member that splits and parses back to exactly them |
| Cli.EnsuredIsRequired | crates/cli/src/httpsig.rs:279-286 | the coverage check passes exactly when a verifier requiring the same components finds them covered |

## Left out

- Ed25519, P-256, SHA-256 and base64 themselves: library code, taken as parameters. Signing and verifying act on the base as text; its UTF-8 bytes determine it.
- Message texts of failures: a parse failure carries a reason and the offending text instead of a sentence.
- Byte offsets: text is a sequence of Unicode scalar values, and slices are taken at characters. Identifier lengths are counted in UTF-8 bytes, as the program counts them.
- Reading quoted strings back into print: the reader accepts unescaped inner quotes, so printing what was read is not the identity and is not claimed.
- Params.SerializeParamsValue: a loop over the serialization order stands for the program's nine consecutive appends; the order and text are the same.
- Dictionary.SplitDictionary: the duplicate scan that ends the program's function is a method of its own, and so are the component loop of `parse_input_member` and the copies into the DER decoder's array.
- Request authority, path, method and header value validators of the command line, and its file, key and clock handling: they constrain messages further than any proof here asks.
- `Content-Digest` computation and comparison: one hash and one string comparison.
- JWK, WIT and WPT tokens, certificates, the issuer, the demo, fuzzing and conformance tooling: straight-line checks around library calls.
- Replay caches, nonce entropy and the handling of unsigned responses: the repository assigns them to the caller.
