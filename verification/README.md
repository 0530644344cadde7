# Models of the hard parts of LittleShoot's plugin and tools

This project models six components of the repository in Dafny and proves what they are for. Each loop, buffer and
object of the code is a method or class here, proved against a function; what the component promises is then proved
about that function, for all inputs.

| files | component |
|---|---|
| `TokenPump.dfy`, `JsonText.dfy`, `Pratt.dfy`, `Precedence.dfy` | JSLint: the lookahead queue (`peek`, `advance`), the JSON recogniser, the precedence parser with its operator table, and what the table means for scripts |
| `Sax.dfy`, `SitemapWriter.dfy`, `UrlEscape.dfy`, `Addresses.dfy`, `Wildcards.dfy`, `SitemapNames.dfy`, `OwnOutput.dfy`, `IndexReader.dfy`, `IndexText.dfy` | the sitemap generator: reading Sitemaps with a stack of SAX contexts, consuming and flushing URLs, canonical URLs, names of output files and reading them back from an index |
| `GetUrl.dfy`, `Rfc3986.dfy` | the plugin's `get_url`: relative URLs resolved inside one character buffer; RFC 3986, and when the two agree |
| `ByteBuffer.dfy` | the growable byte buffer and the stream message marshalled into it |
| `Jlong.dfy` | 64-bit integers made of two 32-bit halves |
| `StreamFeed.dfy` | the host's loop that feeds a download to a plugin in chunks |
| `Basics.dfy` | an option type, minimum and maximum, and two facts about sequences |

## What is proved, component by component

**Token pump.** `Pump.Valid` says that the delivered tokens, the queue and the unread stream together are always the
whole text without its line ends. `Peek` keeps what is still to be delivered, `Advance` delivers exactly the next
token. Warnings are counted exactly: those a grammar routine asks for, and one for each confusing pair of neighbours
delivered.

**JSON.** The verdict of a run in JSON mode is "no warning and no error" exactly when a derivation in the grammar of
section 2 of RFC 4627 exists that has distinct keys, no `__proto__` key and no space after a minus sign. Grammar,
function and recogniser each list the kinds of literal for themselves.

**Expressions.** `ExpressionGrammar.Binds` says, on the tree alone, what it means to respect the coded binding powers.
`parse(rbp)` yields a tree and a rest exactly when the tree respects the table, the tokens consumed are its tokens in
order, and the next token neither binds tighter than `rbp` nor belongs to an operand at the right edge. The last
condition is more than "binds no tighter than `rbp`": `FollowingAssignmentIsTakenIn` shows that `a ? b : c` read with
power 20 takes in a following `=`, because the parts of `?:` are read with 10 and assignments bind with 20.

`Precedence` says the same without powers and handlers, with the operators listed in ten tiers: a chain of binary
operators, however long, is read back as a tree if and only if the tree is grouped by the tiers (`ChainsGroupByTiers`),
of two operators the tighter one takes the operand between them, and prefix operators, suffixes, members, calls,
subscripts, `?:` and parentheses have laws of their own. They also say what each token can do on its own, at the
start and between two names, what may be assigned to, and what `==` asks of its operands. One oddity comes out: as a
bitwise assignment leaves its target as the node, `(a &= b) = c` is accepted, and `(a + b) = c` is not.

**Sitemaps, read.** The handler accepts a well-formed document exactly when it conforms to one of the two shapes, hands
on the entries in document order with each attribute being its stripped text (the last one that is not blank wins,
which `LastText` says on the tree, attribute by attribute), crashes on no assertion and leaves its contexts clean, however the parser cuts the text. That is one file from clean
contexts. A schema error inside an entry leaves the entry open, and so does an XML error that cuts a file short
there, so over several files "no assertion fires" is false. The exact condition, on the events of the files, complete or
cut anywhere, is that no file stops inside an entry before a later file that opens one (`InputCrashesExactly`);
`DocumentLeaves` says it of complete documents in terms of their trees, and `SchemaErrorLeavesEntryOpen` and
`CutFileLeavesEntryOpen` are the shortest cases.

**Sitemaps, written.** Over any inputs the files are a function of what was admitted: file `i` is the next full set of
first-seen URLs, sorted, and priced by what had been seen when it was flushed, which is as much as it took to fill it, or
everything; their number is the quotient rounded up (at least one), and an index of exactly these files is written if
there are several. The greatest count is the greatest number of sightings that any key had reached while it was pending,
and at least 2. Two URLs are taken for the same if and only if they are equal or one is the other plus a slash
(`KeysTellLocations`); in these terms every admitted URL is in the files, in exactly one place (`OncePerLocation`). Generated priorities lie in (0, 1] and rank the URLs of a file by their sightings up to the flush; given ones stay.

**URLs and names.** Escaping a component keeps what it stands for, leaves no stray percent sign, and changes nothing the
second time; `EscapeByByte` says with the bytes listed which of them stay and what the others become. Below a base URL without query and fragment the step from locations to files gives back the written paths, in
order, exactly when the directory is not the root and no name contains `?`, `#` or a percent escape (`IndexReadsBack`). But an index is XML, and the generator
writes locations into it without escaping `&`: reading the text of the index gives back the paths exactly when, besides,
no name contains `&` and the base URL can be read as written; a single location that cannot be read loses all files
(`IndexTextReadsBack`, `AmpersandLosesAll`). Names never collide. For a host without bracket the generator recognises all
its own URLs exactly when the prefix ends in no unfinished escape, and `SlipsExactly` says of each file whether it slips
through; a run lists no URL of its own but those that do. For a host in brackets, as IPv6 sites have, none is recognised.

**get_url.** The in-place loops compute `UrlResolution.Resolve`. The model's buffer has the `strlen(base) + strlen(url) +
1` cells that line 176 allocates, and one more exactly where a relative path is joined to a base without a path; that no
store leaves it is what the array bounds checks of its verification mean, and `AllocatedCellsSuffice` says that the
result does not fit into less in that case.

`Rfc3986` states sections 3 and 5.2 of RFC 3986 for themselves: the components of base and reference, merging, dot
segments. For every base with a scheme, which section 5.1 demands, and every reference `ResolvesAsAsked` says exactly when
`get_url` gives the URL that RFC 3986 asks for. For a reference to a relative path its dot segments all have to lead (in
the path: those in a query do not matter), the base must have enough directories for them, and what the code keeps of
the base must be the scheme, the authority and the directory without dot segments. For bases of the usual form, with an
authority and no slash in query and fragment, which only follow a path, this is so exactly when the base has no dot segments or all its directories
are dropped (`AgreesWithRfc`). It is never so for bases such as `file:/a` (`LoneSegmentDisagrees`) and where part of the
base's query is kept, as for `http://h/a?q=/c` (`TailKeptDisagrees`). References of other kinds agree under conditions of
their own, which `Agrees` lists; `a/b:c`, for one, is taken for an absolute URL and never agrees.

**Buffer and message.** Every operation is stated on the contents as a byte sequence, including the quirks of `seek`,
copying and `truncate(0)`. A marshalled entry is read back as its fields exactly when its five strings are shorter than
65536 bytes, which is also exactly when the buffer's size is 22 plus `bodyLength`.

**64-bit integers.** The multiplication by 16-bit limbs loses nothing; all operations equal the arithmetic on integers
modulo 2^64; quotient times divisor plus remainder gives the dividend back, the most negative one included.

**Stream feeding.** Whatever counts the plugin is ready for and whatever each read yields, the chunks are consecutive,
fit both limits, and make up the source up to the largest announced size; the temporary file holds the same bytes. The
loop ends, after a definite number of rounds, exactly when rounds in which the plugin, if it is asked, takes something and
something can be read keep coming until the announced size is reached; otherwise the position stays below it for ever
(`ReachesExactly`). The plugin may pause for as long as it likes.

## Where code and documentation or expectations differ

- `bin/jslint.js:166`: suffix operators have power 150, and so have the pure prefix operators, although nothing can come
  of the latter after an operand; `+` and `(` keep their first power when they become prefixes. The table follows the code.
- `npapi/mozilla/protocol.hpp:85`: the hand-written message counts the five length fields in `bodyLength` (0xCC is 194
  plus 10); `stream_entry::marshal` does not. The model follows `stream_entry::marshal`.
- `npapi/mozilla/byte_buffer.cpp:59-81`: a copy takes `end_` bytes from where the other buffer starts, so it
  holds the contents, whatever memory holds, exactly if that is 0 or the contents are empty (`CopyKeepsContents`), and may
  read past the other's end. Lines 112-118: a seek beyond `end_`
  breaks the invariant. Lines 154-164: `truncate(0)` resizes to the space left at the end.
- `npapi/mozilla/littleshootplugin.cpp:176`: one cell too few in the case named above, and only there; in
  that case the model's buffer has one cell more.
- `npapi/activex/npapi/jri_md.h:252`: the note that comparisons work only for strict relations is proved, with the exact
  cases in which the others do.
- `npapi/activex/URLDataCallback.cpp:559`: the plugin's signed answer is compared as unsigned, so a negative answer limits
  nothing. An answer of 0 makes a round that delivers an empty chunk and does not move on; the loop then asks again at once.

## Model

| member | source | states |
|---|---|---|
| TokenPump.Pump.Peek | bin/jslint.js:108-110 | Looking ahead returns the token that lexing on would give at that distance, and changes neither what will be delivered nor any other token ahead. |
| TokenPump.Pump.Advance | bin/jslint.js:111-118 | Delivers exactly the next token that is no line end, whatever was looked at before; at the end it stays there; a token other than the expected one costs exactly one fault; a confusing pair one more warning. |
| TokenPump.Alternate | bin/jslint.js:108-118 | However looking ahead and advancing alternate, the tokens delivered are the significant ones in order, and then end markers. |
| TokenPump.Pump.Pull | bin/jslint.js:117-118 | The refill skips exactly the line ends: `nexttoken` and what follows are the significant tokens of queue and unread stream. |
| TokenPump.Pump.Count | bin/jslint.js:15-18 | A warning counts one and throws when only the first may be reported or it is the fiftieth. |
| Tokens.ConfusionsOfPrefix | bin/jslint.js:111-115 | A beginning of the text has no more confusing pairs than the whole, which bounds the warnings of any run. |
| Tokens.SignificantOfPadding | bin/jslint.js:108-118 | End markers queued by looking past the end add nothing to what is delivered. |
| JsonGrammar.ValueSound | bin/jslint.js:438-439 | What is accepted has a derivation whose tokens, in order, are the tokens consumed. |
| JsonGrammar.MembersSound | bin/jslint.js:429-433 | The members of an accepted object have a derivation with string keys that are distinct, unseen before, and not `__proto__`. |
| JsonGrammar.ItemsSound | bin/jslint.js:434-437 | The elements of an accepted array have a derivation: values separated by single commas, none at the end. |
| JsonGrammar.ValueComplete | bin/jslint.js:438-439 | Every derivation is accepted and exactly its tokens are consumed, whatever follows. |
| JsonGrammar.MembersComplete | bin/jslint.js:429-433 | Every list of members with fresh distinct keys is accepted and consumed whole. |
| JsonGrammar.AcceptsExactlyTheGrammar | bin/jslint.js:429-439 | A text is accepted to its end if and only if a derivation of it exists. |
| JsonGrammar.ValuesOfOneToken | bin/jslint.js:438-439 | Of single tokens exactly true, false, null, numbers and strings are values; of a minus sign and a token exactly a number without space between. |
| JsonGrammar.ArraysOfOneToken | bin/jslint.js:434-439 | An array of one token has a derivation exactly for these five. |
| JsonRecogniser.JsonValue | bin/jslint.js:438-439 | Terminates on every stream; ends without complaint and leaves the right rest if the grammar accepts, and complains or throws if it does not. |
| JsonRecogniser.JsonObject | bin/jslint.js:429-433 | The same for objects. |
| JsonRecogniser.JsonArray | bin/jslint.js:434-437 | The same for arrays. |
| JsonRecogniser.AcceptedIsCalm | bin/jslint.js:111-115 | No accepted text has confusing neighbours, so that it draws no warning at all. |
| JsonRecogniser.Lint | bin/jslint.js:446-451 | A run is a JSON run exactly if the text starts with a brace or bracket, and is then clean exactly if a derivation exists. |
| ExpressionGrammar.ParseSound | bin/jslint.js:119-125 | Every successful parse yields a tree that respects the table, whose tokens are those consumed, and stops before a token that binds no tighter and belongs to no operand at the edge. |
| ExpressionGrammar.ContinueSound | bin/jslint.js:124-125 | The loop keeps that, starting from any expression read so far. |
| ExpressionGrammar.ExtendSound | bin/jslint.js:148-167 | So does every infix and suffix handler. |
| ExpressionGrammar.BindsParses | bin/jslint.js:119-125 | Reading the tokens of a tree that respects the table leads the loop to exactly this tree, before what follows is looked at. |
| ExpressionGrammar.ItemsParse | bin/jslint.js:366-380 | Lists of arguments and elements are read back whole, and not taken for empty ones. |
| ExpressionGrammar.ParsesExactlyTheTable | bin/jslint.js:119-125 | `parse(rbp)` returns the tree and leaves the rest if and only if the text is the tokens of the tree and then the rest, the tree respects the table, and the next token is right. |
| ExpressionGrammar.TreeIsUnique | bin/jslint.js:119-167 | No text reads as two trees that respect the table, or with two rests. |
| ExpressionGrammar.DelimitedParses | bin/jslint.js:119-125 | Before a delimiter every tree is read back whole for every power. |
| ExpressionGrammar.FollowingAssignmentIsTakenIn | bin/jslint.js:153-159 | Counterexample: a following token that binds no tighter than `rbp` may still be taken in by the last part of a `?:`. |
| Precedence.ChainsGroupByTiers | bin/jslint.js:119-125 | A tree of any number of binary operators over names is what its tokens parse to if and only if below every operator stand, to the left, only tighter ones or ones of its tier and, to the right, only tighter ones, where assignments have a name to the left and group to the right. |
| Precedence.TwoOperators | bin/jslint.js:349-353 | For all names and all pairs of binary operators: the tighter one takes the operand between them, in one tier the first, among assignments the second; what another operator yields cannot be assigned to. |
| Precedence.PrefixThenOperator | bin/jslint.js:142-144 | A sign, `!`, `~`, `typeof`, `++`, `--` or `new` goes with its operand before any binary operator, and the two cannot be assigned to. |
| Precedence.DeleteThenOperator | bin/jslint.js:353 | `delete` takes all operators that follow. |
| Precedence.OperatorThenPrefix | bin/jslint.js:353-354 | After an operator a sign takes one operand and `delete` all that follows; as `delete` leaves no node, `==` and `!=` before it fail. |
| Precedence.OperatorThenEnding | bin/jslint.js:166-167 | Suffix, member, call and subscript go with the operand right before them, whatever operator stands before that. |
| Precedence.EndingsInOrder | bin/jslint.js:357-375 | Any two of them apply in the order in which they are written. |
| Precedence.PrefixThenEnding | bin/jslint.js:354-357 | A prefix operator takes its operand with all of these, but signs leave a suffix outside, and `new` a suffix and a call. |
| Precedence.EndingThenOperator | bin/jslint.js:153-165 | Any operator may follow them; an assignment only a member or subscript, and a plain one not if that is of `arguments`. |
| Precedence.OperatorThenChoice | bin/jslint.js:349 | `?:` is looser than all binary operators but assignments. |
| Precedence.ChoiceThenOperators | bin/jslint.js:349 | Its second and third part take any operators, assignments too. |
| Precedence.ChoiceThenChoice | bin/jslint.js:349 | Conditionals group to the right, and nest between `?` and `:`. |
| Precedence.PrefixThenChoice | bin/jslint.js:353-354 | A sign goes with the condition; `delete` takes the whole conditional. |
| Precedence.ParenThenOperator | bin/jslint.js:372-373 | What is in parentheses is one operand for any operator; it can be assigned to exactly if it is a bitwise assignment. |
| Precedence.ListRead | bin/jslint.js:366-380 | Commas keep arguments and elements apart, whatever operators stand in them. |
| Precedence.LoneToken | bin/jslint.js:347-349 | Which single tokens are expressions. |
| Precedence.FirstToken | bin/jslint.js:353-354 | What each token makes of a name after it: prefix operator, expression of its own, or nothing. |
| Precedence.SecondToken | bin/jslint.js:119-125 | What each token does between two names: joins them, applies to the first, ends the expression, or is refused. |
| Precedence.MemberNames | bin/jslint.js:168-171 | After a dot exactly names stand without complaint, and reserved words with the value `arguments`. |
| Precedence.LoneOperands | bin/jslint.js:150-155 | A single token can be assigned to exactly if it is a name; `==` and `!=` accept an empty array exactly beside an operand that makes them complain first. |
| Precedence.LiteralsJoin | bin/jslint.js:351-353 | Any number of string literals joined by `+` yields one string node with their texts in order. |
| ExpressionParser.ParseExpr | bin/jslint.js:119-125 | The parser on the pump: terminates, returns the node of the tree and leaves the rest that the table asks for, and complains or throws if there is none. |
| ExpressionParser.HandlePrefix | bin/jslint.js:142-147 | The same for the handlers of tokens that start an expression. |
| ExpressionParser.HandleBinary | bin/jslint.js:148-165 | The same for binary operators, with assignments refusing a left side that is no name and no place before they read on, or complaining about one in `arguments`, and `+` joining two string literals. |
| ExpressionParser.HandleCall | bin/jslint.js:365-372 | The same for calls. |
| ExpressionParser.HandleIndex | bin/jslint.js:373-375 | The same for subscripts. |
| ExpressionParser.HandleChoice | bin/jslint.js:349 | The same for conditionals, both parts read with 10. |
| ExpressionParser.HandlePostfix | bin/jslint.js:166-167 | The same for suffixes, members and tokens that cannot follow an operand. |
| ExpressionParser.ParseList | bin/jslint.js:366-380 | The same for lists; an extra comma in an array literal is a fault. |
| SaxContexts.DocumentRuns | bin/sitemap_gen.py:1158-1344 | From clean contexts a well-formed document is accepted if and only if it conforms, never crashes, hands on exactly its entries in order, each attribute being the last text of the element so named that is not blank, and leaves the contexts clean. |
| SaxContexts.EntryRuns | bin/sitemap_gen.py:1221-1246 | The events of an entry are accepted if and only if it is one, and leave each attribute with the last text given for it that is not blank, stripped. |
| SaxContexts.AttributeRuns | bin/sitemap_gen.py:1310-1344 | A value is its text, however cut, stripped; a blank one leaves the attribute as it was. |
| SaxContexts.ListRuns | bin/sitemap_gen.py:1211-1308 | The events of all entries are accepted if and only if each is an entry and only space stands between them. |
| SaxContexts.EntriesCollected | bin/sitemap_gen.py:1239-1283 | Sitemap entries reach the consumer in order, index locations the list in order, and nothing else changes. |
| SaxContexts.CutsDoNotMatter | bin/sitemap_gen.py:1533-1542 | Acceptance and meaning depend only on the document with adjacent runs of text joined. |
| SaxErrors.RestEnds | bin/sitemap_gen.py:1467-1542 | Inside the root, from contexts in whatever condition, and wherever the events stop: the handler crashes exactly if it opens an entry while one is open, and otherwise leaves one open exactly if one was or the events stop inside one. |
| SaxErrors.FileEnds | bin/sitemap_gen.py:1408-1434 | The same for one file, complete or cut short by an XML error. |
| SaxErrors.CrashesExactly | bin/sitemap_gen.py:1403-1427 | Over any sequence of files, complete or cut short, the handler crashes if and only if an entry was left open, before or by a file that stops inside it, and a later file opens one. |
| SaxErrors.InputCrashesExactly | bin/sitemap_gen.py:1372-1427 | The same for a whole input, of whose first file only a Sitemap matters. |
| SaxErrors.IndexEnds | bin/sitemap_gen.py:1248-1308 | An index, complete or cut short, never crashes and keeps to its own contexts. |
| SaxErrors.DocumentLeaves | bin/sitemap_gen.py:1205-1246 | A complete document opens an entry if its first child is one, and leaves one open exactly if the first violation of the schema lies inside one. |
| SaxErrors.DocumentIsFile | bin/sitemap_gen.py:1408-1434 | A document is such a file, complete or cut anywhere. |
| SaxErrors.SchemaErrorLeavesEntryOpen | bin/sitemap_gen.py:1420-1422 | The shortest case: a schema error inside an entry, and a correct file that crashes after it. |
| SaxErrors.CutFileLeavesEntryOpen | bin/sitemap_gen.py:1424-1427 | The other one: a file that ends inside an entry, and a correct file that crashes after it. |
| SitemapDocument.StripTrims | bin/sitemap_gen.py:1336-1343 | Stripping takes blanks off both ends and nothing else. |
| SitemapDocument.SpacesGo | bin/sitemap_gen.py:1336-1343 | The characters that stripping takes, by their codes. |
| SaxHandler.InputSitemap.StartElement | bin/sitemap_gen.py:1467-1516 | The handler's fields after an opening tag are those of the pure transition, errors and assertions included. |
| SaxHandler.InputSitemap.EndElement | bin/sitemap_gen.py:1518-1531 | The same for a closing tag. |
| SaxHandler.InputSitemap.Characters | bin/sitemap_gen.py:1533-1542 | The same for text. |
| SaxHandler.InputSitemap.ProcessFile | bin/sitemap_gen.py:1408-1434 | A file's events are run to the end or the first error. |
| SaxHandler.InputSitemap.ProduceURLs | bin/sitemap_gen.py:1372-1406 | The first file chooses its contexts, the others must be Sitemaps; schema errors end only their file. |
| SaxHandler.SitemapsRun | bin/sitemap_gen.py:1403-1406 | Reading Sitemap after Sitemap hands on all their entries in order and ends clean. |
| UrlOrder.SortSorts | bin/sitemap_gen.py:1853-1855 | Sorting gives a permutation in the order of locations. |
| UrlOrder.OrderIsLexicographic | bin/sitemap_gen.py:451-457 | That order goes by the first place at which two locations differ, a beginning coming first. |
| UrlOrder.KeysTellLocations | bin/sitemap_gen.py:602-608 | Two URLs have the same key if and only if their locations are equal, or one is the other and a slash and the shorter ends in none. |
| UrlOrder.CountsAreSightings | bin/sitemap_gen.py:1823-1833 | The count of a key is the number of URLs seen with such locations. |
| UrlOrder.FirstSeenOncePerKey | bin/sitemap_gen.py:1823-1837 | Every key of the history is accepted once, and none is lost. |
| UrlOrder.DistinctPlaces | bin/sitemap_gen.py:1823-1837 | No two places of such a sequence hold the same key. |
| SitemapWriter.Sitemap.Normalize | bin/sitemap_gen.py:1855-1862 | The pending set becomes its sorted and priced self; exactly its keys are marked as flushed. |
| SitemapWriter.Sitemap.FlushSet | bin/sitemap_gen.py:1846-1900 | Exactly the pending set goes to the next file, and the counts still agree with the history. |
| SitemapWriter.Sitemap.ConsumeURL | bin/sitemap_gen.py:1795-1844 | Every state keeps: pending counts are sightings, flushed keys are -1, the maximum is at least 2 and every count, and files and pending set share out the first-seen URLs. |
| SitemapWriter.Sitemap.NoteSighting | bin/sitemap_gen.py:1823-1833 | A repeated key counts while pending, and never comes back once flushed. |
| SitemapWriter.Sitemap.Accept | bin/sitemap_gen.py:1835-1843 | A new key is added, and a full set is flushed at once. |
| SitemapWriter.Sitemap.Generate | bin/sitemap_gen.py:1771-1786 | The last set is flushed, an empty one only if it is the only one; the index lists all files if there are several. |
| SitemapWriter.Sitemap.WriteIndex | bin/sitemap_gen.py:1920-1924 | The index lists the numbers of all files, in order. |
| SitemapWriter.Run | bin/sitemap_gen.py:1771-1933 | The whole run for any inputs, as a function of what was admitted: every flush with its set, what had been seen and the greatest count; the files, in which each location is listed once, their ranking by sightings, their number and the index. |
| SitemapWriter.ListedOnce | bin/sitemap_gen.py:1823-1837 | Whatever was admitted is in some file, slashes at the end not counting; no two places of all the files hold the same location; nothing else is in them. |
| SitemapWriter.FileCount | bin/sitemap_gen.py:1842-1843 | The number of files is the number of URLs over the limit, rounded up, at least one. |
| SitemapWriter.WrittenIsSortedSet | bin/sitemap_gen.py:1853-1862 | A file holds each URL of its set once, priced, and nothing else, sorted and with distinct keys. |
| SitemapWriter.FlushStays | bin/sitemap_gen.py:1842-1862 | What a full set is, when it was flushed and the greatest count then do not depend on what comes later. |
| SitemapWriter.Sitemap.FlushNow | bin/sitemap_gen.py:1842-1862 | The set that is flushed is the next one of the history, with everything seen by then and the greatest count by then. |
| SitemapWriter.PrioritiesRankByCount | bin/sitemap_gen.py:1860-1862 | In a file the URLs that came without a priority get the ratio of their sightings to the greatest count, as real numbers in (0, 1], which order them as their sightings do. |
| UrlEscape.EscapeIsCanonical | bin/sitemap_gen.py:491-534 | Escaping any component keeps what it decodes to, leaves only safe bytes and whole escapes, and is idempotent. |
| UrlEscape.EscapeByByte | bin/sitemap_gen.py:493-498 | Byte by byte, with the sets listed for host, path, query and fragment: those that stay, a percent sign kept exactly before two hexadecimal digits and escaped otherwise, and the two-digit escape of all others. |
| UrlEscape.PlainStays | bin/sitemap_gen.py:493-498 | A component of bytes that stay comes out unchanged. |
| UrlEscape.DigitsDecode | bin/sitemap_gen.py:1449 | Decoding takes digits of either case, each for its place among the sixteen. |
| UrlEscape.QuoteMeans | bin/sitemap_gen.py:493-498 | Quoting keeps what a component decodes to, malformed escapes taken literally. |
| UrlEscape.RepairMeans | bin/sitemap_gen.py:525-534 | So does repairing percent signs. |
| UrlEscape.SplitRepairs | bin/sitemap_gen.py:527-529 | Splitting at percent signs and joining with the repairs is the repair, byte by byte. |
| UrlEscape.RepairPercents | bin/sitemap_gen.py:525-534 | The loop computes the repair. |
| UrlEscape.RepairJoins | bin/sitemap_gen.py:525-534 | Repairing is local: two texts are repaired separately unless the first is left open and the second could complete it. |
| UrlEscape.UnsplitRepairs | bin/sitemap_gen.py:522-534 | Repairing the reassembled URL repairs each component; no escape reaches across a delimiter. |
| UrlEscape.Canonicalize | bin/sitemap_gen.py:483-542 | The method puts the escaped components together, each that is not empty with its delimiter. |
| Addresses.CanonicalIsSplit | bin/sitemap_gen.py:492-522 | Splitting a canonical URL gives the escaped components, so canonicalising it again changes nothing. |
| Addresses.CanonicalAppends | bin/sitemap_gen.py:1612-1632 | Plain text appended to a URL that ends in no unfinished escape is appended to the canonical one, after an empty component's delimiter. |
| Addresses.CanonicalAfterPercent | bin/sitemap_gen.py:525-534 | A percent sign and plain text appended to any URL are appended to the canonical one, the sign repaired exactly if the text does not complete it. |
| Addresses.CanonicalStaysShut | bin/sitemap_gen.py:525-534 | A canonical URL ends in no unfinished escape and has no bracket after the host. |
| Wildcards.StarMatches | bin/sitemap_gen.py:1818-1819 | A pattern of two texts without brackets and a star between them matches whatever stands between them. |
| Wildcards.StarAndQuestionMatch | bin/sitemap_gen.py:1818-1819 | A star matches exactly any beginning, a question mark any one byte. |
| Wildcards.BracketsMatch | bin/sitemap_gen.py:1818-1819 | Brackets match one byte that is in them, or with `!` one that is not. |
| Wildcards.RangeMatches | bin/sitemap_gen.py:1818-1819 | Two bytes with a hyphen between them stand for all from one to the other. |
| Wildcards.LoneBracketMatches | bin/sitemap_gen.py:1818-1819 | An opening bracket that nothing closes matches itself. |
| Wildcards.LastPercentsMatch | bin/sitemap_gen.py:1818-1819 | If pattern and text hold equally many percent signs, a match aligns the last ones. |
| SitemapNames.FilePathGenerator.Preload | bin/sitemap_gen.py:1568-1600 | Succeeds exactly on a known extension, and then splits the path into a directory, a prefix without slash and the extension, which together are the path; of `.xml.gz` and `.gz` the longer extension is taken. |
| SitemapNames.FilePathGenerator.GeneratePath | bin/sitemap_gen.py:1602-1610 | The path is directory, prefix and the ending of the instance. |
| SitemapNames.FilePathGenerator.GenerateURL | bin/sitemap_gen.py:1612-1624 | The URL is the canonical form of root, prefix and ending. |
| SitemapNames.FilePathGenerator.GenerateWildURL | bin/sitemap_gen.py:1626-1632 | Canonicalising twice and cutting gives the canonical root and prefix, a star, and the extension unchanged. |
| SitemapNames.NamesDiffer | bin/sitemap_gen.py:1602-1610 | Names of different numbers, and that of the index, differ. |
| SitemapNames.DecimalReads | bin/sitemap_gen.py:1602-1610 | The number in a name is written in decimal digits, without a zero too many. |
| OwnOutput.OwnUrlsAreRecognised | bin/sitemap_gen.py:1817-1821 | For a host without bracket all generated URLs match the pattern or the index URL if and only if the prefix ends in no unfinished escape. |
| OwnOutput.SlipsExactly | bin/sitemap_gen.py:1817-1821 | A generated URL slips through if and only if the prefix ends in an unfinished escape that its ending completes, and not to what the repair makes of it. |
| OwnOutput.ShutPrefixIsRecognised | bin/sitemap_gen.py:1612-1632 | With any other prefix every URL is recognised. |
| OwnOutput.OpenPrefixHidesOwnUrls | bin/sitemap_gen.py:1626-1632 | Counterexamples: after a prefix that ends in a percent sign the files numbered from 10 on slip through, but those whose number starts with 25. |
| OwnOutput.BracketsHideOwnUrls | bin/sitemap_gen.py:1817-1821 | Counterexamples: with a host in brackets, with or without user, zone and port, no generated URL is recognised. |
| OwnOutput.AddressIsNoRange | bin/sitemap_gen.py:1817-1821 | This covers every address without a hyphen. |
| OwnRun.RunSite | bin/sitemap_gen.py:1795-1844 | In a run with the two patterns among its filters no file lists a generated URL but those that slip through, and none at all with a prefix that ends in no unfinished escape below a host without bracket. |
| IndexReader.PathList.MungeLocationListIntoFiles | bin/sitemap_gen.py:1436-1465 | Appends, in order, the file of each location, in the directory of the first path. |
| IndexReader.LocationReadsBack | bin/sitemap_gen.py:1448-1464 | An emitted location is read as the path written if and only if the directory is empty or not the root and the name has no `?`, `#` or escape; below a base with a query or fragment, if and only if it is the last segment of the base's path. |
| IndexReader.IndexReadsBack | bin/sitemap_gen.py:1448-1464 | The step from locations to files gives back all the paths in order if and only if this holds for each. |
| IndexText.CharDataJoins | bin/sitemap_gen.py:129-133 | Character data is read piece by piece, as no reference reaches across a delimiter. |
| IndexText.MarkedReadsBack | bin/sitemap_gen.py:129-133 | A text written with its five special bytes as references would come back. |
| IndexText.LocationDecodes | bin/sitemap_gen.py:1920-1924 | Reading the text of a location reads its host and what follows it, and fails if one of them does. |
| IndexText.CanonicalHasNoMarkup | bin/sitemap_gen.py:491-498 | A location holds no angle brackets, so that it is character data. |
| IndexText.DecodingShrinks | bin/sitemap_gen.py:129-133 | Every reference makes the decoded name shorter, so that none comes through. |
| IndexText.NameComesBack | bin/sitemap_gen.py:1448-1464 | The name in the text of a location is read as written if and only if the location can be read and the name has no `&`, `?`, `#` or escape; below a base with a query or fragment, if and only if the base's last segment is read as it. |
| IndexText.IndexTextReadsBack | bin/sitemap_gen.py:1903-1924 | Reading the text of the index gives back the paths of all files, in order, if and only if every location comes back. |
| IndexText.PlainPrefixComesBack | bin/sitemap_gen.py:1602-1610 | A prefix without `%`, `?`, `#` and `&` is enough for every number, below a base that can be read. |
| IndexText.AmpersandLosesAll | bin/sitemap_gen.py:1920-1924 | With `&` in the prefix the paths are not read back. |
| IndexReader.PlainPrefixReadsBack | bin/sitemap_gen.py:1602-1610 | A prefix without `%`, `?` and `#` is enough for every number. |
| IndexReader.NameIsRead | bin/sitemap_gen.py:1448-1454 | What is read is the name up to a delimiter, its escapes decoded; below a base with a query or fragment always the same. |
| IndexReader.LocationIsUrl | bin/sitemap_gen.py:1920-1923 | The location is the generated URL, and can be taken apart like any other. |
| UrlBuffer.GetUrl | npapi/mozilla/littleshootplugin.cpp:132-316 | The buffer holds exactly the resolved URL and a terminator, null exactly where there is none, within the cells allocated and one more in one case. |
| UrlBuffer.AllocatedCellsSuffice | npapi/mozilla/littleshootplugin.cpp:176 | The result and its terminator fit into the cells that the plugin allocates if and only if this is not that case. |
| UrlBuffer.HasProtocol | npapi/mozilla/littleshootplugin.cpp:142-169 | The scan decides whether the URL has a protocol header. |
| UrlBuffer.LocatePath | npapi/mozilla/littleshootplugin.cpp:195-232 | Finds the path of the base, or gives it one, or fails exactly on a base path that is not absolute. |
| UrlBuffer.ReplacePath | npapi/mozilla/littleshootplugin.cpp:234-240 | An absolute path replaces that of the base, in a buffer of the cells that the plugin allocates. |
| UrlBuffer.MergeInto | npapi/mozilla/littleshootplugin.cpp:242-310 | The buffer, one cell longer only if the base has no path, holds the base cut at its last slash and climbed, and the rest of the reference. |
| UrlBuffer.FactorOut | npapi/mozilla/littleshootplugin.cpp:248-306 | The loop terminates and climbs one segment per leading `..`, never past the first slash of the path. |
| UrlResolution.ClimbLeavesEnd | npapi/mozilla/littleshootplugin.cpp:253-306 | What the loop leaves is an end of the reference. |
| RfcAgreement.ResolvesAsAsked | npapi/mozilla/littleshootplugin.cpp:132-316 | For every base with a scheme and every reference the result is that of section 5.2 of RFC 3986 if and only if a condition on the two holds, which goes by the kind of the reference. |
| RfcAgreement.RelativePathAgrees | npapi/mozilla/littleshootplugin.cpp:242-310 | For relative paths: if and only if all dot segments of the path lead, the base has more directories than `..` come before the last of them, and what is kept of the base is its scheme, its authority and its directory without dot segments. |
| RfcAgreement.AgreesWithRfc | npapi/mozilla/littleshootplugin.cpp:242-310 | For bases with an authority and no slash in query and fragment the last condition is that the base has no dot segments or all its directories are dropped. |
| RfcAgreement.SlashAgrees | npapi/mozilla/littleshootplugin.cpp:234-240 | For absolute paths and network paths: if and only if the code replaces the base from where it should, and the path has no dot segments. |
| RfcAgreement.TailAgrees | npapi/mozilla/littleshootplugin.cpp:242-310 | For a query or a fragment alone: if and only if what is to be kept of the base ends in the base's last slash. |
| RfcAgreement.SchemesAreAbsolute | npapi/mozilla/littleshootplugin.cpp:142-169 | What the code takes for absolute are exactly the references with a scheme by section 3.1, and those that have a slash before the colon. |
| RfcAgreement.AbsoluteAgrees | npapi/mozilla/littleshootplugin.cpp:142-169 | For what the code takes for absolute: if and only if it has a scheme and its path has no dot segments. |
| RfcAgreement.LoneSegmentDisagrees | npapi/mozilla/littleshootplugin.cpp:200-219 | Counterexamples: without an authority and with a path of one segment, as for `file:/a`, no relative path agrees. |
| RfcAgreement.TailKeptDisagrees | npapi/mozilla/littleshootplugin.cpp:242-246 | Counterexamples: where something of the base's query is kept, as for `http://h/a?q=/c`, no relative path agrees. |
| RfcAgreement.DotsDecideLeftover | npapi/mozilla/littleshootplugin.cpp:253-306 | What the loop leaves has no dot segments in its path if and only if they all lead and the base has enough directories. |
| DotSegments.OnlyDotlessStays | npapi/mozilla/littleshootplugin.cpp:248-252 | Section 5.2.4 leaves a path as it is if and only if it has no dot segments, rooted or not. |
| DotSegments.OutputIsKept | npapi/mozilla/littleshootplugin.cpp:301-305 | Dropping directories from the base and from what section 5.2.4 makes of it gives the same if and only if the base has no dot segments or nothing is kept. |
| RfcAgreement.ClimbMatches | npapi/mozilla/littleshootplugin.cpp:253-306 | Each round of the loop is a step of section 5.2.4 on the path of the reference, which drops a segment of its output for each directory that the base loses. |
| Bytes.ByteBuffer.WriteBytes | npapi/mozilla/byte_buffer.cpp:100-110 | Appends, whether the buffer has room, grows, or only moves its contents to the front. |
| Bytes.ByteBuffer.Resize | npapi/mozilla/byte_buffer.cpp:120-140 | Keeps what fits, and chooses the capacity by the growth rule. |
| Bytes.ByteBuffer.Shift | npapi/mozilla/byte_buffer.cpp:142-152 | Drops a prefix in place, or nothing if there are not that many bytes. |
| Bytes.ByteBuffer.Seek | npapi/mozilla/byte_buffer.cpp:112-118 | Skips or re-exposes bytes, and leaves the buffer valid exactly for a length up to the end, or one so large that it is ignored. |
| Bytes.ByteBuffer.Truncate | npapi/mozilla/byte_buffer.cpp:154-164 | Keeps a prefix; a length of 0 keeps as much as there is space left at the end. |
| Bytes.ByteBuffer.Copy | npapi/mozilla/byte_buffer.cpp:59-66 | What a copy holds, given what lies in memory behind the other buffer. |
| Bytes.CopyKeepsContents | npapi/mozilla/byte_buffer.cpp:59-66 | Whatever memory holds, a copy has the other's contents if and only if these start at 0 or are empty. |
| Bytes.WriteAll | npapi/mozilla/byte_buffer.cpp:100-140 | Any run of writes holds their bytes in order, and all capacities chosen add up to at most six times that. |
| Bytes.BigEndianReads | npapi/mozilla/byte_buffer.cpp:83-93 | Integers are read back from their big-endian bytes. |
| StreamMessages.StreamMessage.Marshal | npapi/mozilla/protocol.hpp:36-54 | Appends the record of all fields. |
| StreamMessages.StreamEntry.Marshal | npapi/mozilla/stream_entry.cpp:82-111 | The message holds the entry's fields, lengths in 16 bits, and its record. |
| StreamMessages.RoundTrip | npapi/mozilla/stream_entry.cpp:82-111 | The record decodes to the same fields if and only if the five strings are shorter than 65536 bytes. |
| StreamMessages.NoTwoMarshalAlike | npapi/mozilla/protocol.hpp:36-54 | Different entries have different records. |
| StreamMessages.SizeLaw | npapi/mozilla/stream_entry.cpp:84-89 | The size is 22 and the strings; it is 22 plus `bodyLength` if and only if the strings fit, and always so modulo 65536. |
| Jlong.Neg | npapi/activex/npapi/jri_md.h:270-271 | Negation modulo 2^64, the operands being possibly one object. |
| Jlong.Add | npapi/activex/npapi/jri_md.h:272-277 | Addition modulo 2^64. |
| Jlong.Sub | npapi/activex/npapi/jri_md.h:279-284 | Subtraction modulo 2^64. |
| Jlong.Mul32 | npapi/activex/npapi/jri_md.h:306-319 | The exact 64-bit product of two words. |
| Jlong.Columns | npapi/activex/npapi/jri_md.h:312-318 | One conditional carry is all that the columns of the limb products need. |
| Jlong.Mul | npapi/activex/npapi/jri_md.h:291-296 | Multiplication modulo 2^64 for all operands. |
| Jlong.Div | npapi/activex/npapi/jri_md.h:331-348 | Division truncating toward zero, modulo 2^64. |
| Jlong.Mod | npapi/activex/npapi/jri_md.h:350-366 | The remainder takes the sign of the dividend. |
| Jlong.QuotientFits | npapi/activex/npapi/jri_md.h:331-348 | The quotient, read as signed, is the true one except for the most negative number divided by -1. |
| Jlong.DivModRecombine | npapi/activex/npapi/jri_md.h:331-366 | Quotient times divisor plus remainder is the dividend modulo 2^64, always. |
| Jlong.CmpCompares | npapi/activex/npapi/jri_md.h:251-257 | Comparing by halves is comparing, signed and unsigned, if and only if the relation is strict, the high halves differ, or the low ones stand in it. |
| JlongShifts.Shl | npapi/activex/npapi/jri_md.h:371-384 | Multiplication by the power of two, modulo 2^64. |
| JlongShifts.Shr | npapi/activex/npapi/jri_md.h:406-420 | Signed division by the power of two, rounded down. |
| JlongShifts.Ushr | npapi/activex/npapi/jri_md.h:422-436 | Unsigned division by the power of two. |
| JlongShifts.OrAdds | npapi/activex/npapi/jri_md.h:376-377 | Or-ing the two parts of a shifted word adds them, as their bits do not overlap. |
| StreamFeed.UrlDataCallback.OnNPPNewStream | npapi/activex/URLDataCallback.cpp:136-172 | The data is saved and written as the plugin's answer asks. |
| StreamFeed.UrlDataCallback.OnNPPWriteReady | npapi/activex/URLDataCallback.cpp:249-261 | The count is the plugin's answer read as unsigned, or what was offered if it is not asked. |
| StreamFeed.UrlDataCallback.OnNPPWrite | npapi/activex/URLDataCallback.cpp:263-330 | The piece goes to the temporary file and to the plugin, where wanted, and nowhere else. |
| StreamFeed.UrlDataCallback.FeedOnce | npapi/activex/URLDataCallback.cpp:544-578 | One round keeps everything and reads exactly as much as is there, fits the buffer, the plugin is ready for and the stream grants. |
| StreamFeed.UrlDataCallback.OnDataAvailable | npapi/activex/URLDataCallback.cpp:491-581 | If moving rounds keep coming until the announced size is reached, the loop ends after the first round in which it is, the chunks being consecutive, within both limits, and the source's bytes. |
| StreamFeed.UrlDataCallback.ReachesExactly | npapi/activex/URLDataCallback.cpp:544-578 | The announced size is reached after some number of rounds if and only if, as long as it is not, a moving round is still to come. |
| StreamFeed.UrlDataCallback.Stalls | npapi/activex/URLDataCallback.cpp:544-578 | Without a moving round to come the position stays where it is for ever. |
| StreamFeed.UrlDataCallback.OnNPPDestroyStream | npapi/activex/URLDataCallback.cpp:174-225 | `asfile` is called exactly if a file was wanted, with the source up to the position if the file was opened and all went well, and with a null name otherwise. |
| StreamFeed.ChunksAreSlices | npapi/activex/URLDataCallback.cpp:568-577 | Every chunk is the piece of the source at its offset. |
| StreamFeed.Download | npapi/activex/URLDataCallback.cpp:491-581 | Over any sequence of notifications, each of which can be served, the plugin gets the source up to the largest size, through its chunks, its file, or both. |
| StreamFeed.AlwaysMovingDelivers | npapi/activex/URLDataCallback.cpp:544-578 | Each can be served if moving rounds never cease. |

## Left out

- JSLint's lexer is a fixed token stream, in plain script or JSON mode without special comments (`doOption`); scopes,
  style and white-space warnings, HTML, CSS and ADsafe are not modelled, so the limit of fifty warnings counts the
  modelled ones only. With the white-space option a space after a minus sign in JSON is warned about twice; here once.
- Expressions: object literals and functions as operands count as errors, `parse(rbp, initial)` with its statements is
  left out, and `eqeqeq` is off, so that `==` and `!=` look into their operands; a handler that looks into a missing node
  throws, which is an error here.
- ExpressionParser.ParseExpr: says of a text that the table rejects only that the parser complains or throws, not where.
- XML: of the parser the model has the events it reports, in well-nested order, and character data with named references;
  references by number, which can stand only where `#` does, fail here as any other `&`. Attributes of tags (warned about
  only), warnings and logging are left out.
- The reader's locations are handed over by the caller between SaxHandler and IndexReader; `os.path.normpath` and
  `MaybeNarrowPath` are the caller's, so paths are normalised byte strings.
- `urlsplit` is modelled from after the host on; scheme and host are given. IDNA hosts are left out.
- SitemapWriter.Sitemap.ConsumeURL: validation, filters and the patterns of the output files are one function `admit`;
  which output files' URLs are not admitted is OwnOutput.SlipsExactly.
- UrlOrder.KeysTellLocations: an empty location, which validation never admits, has the key of a lone slash here and none
  there.
- SitemapWriter: MD5 is taken as injective on keys, `%.4f` as the exact ratio; headers, compression,
  permissions and notification are left out.
- OwnOutput.OwnUrlsAreRecognised: is about hosts without bracket; of the others those with one pair of brackets are settled
  by OwnOutput.BracketsHideOwnUrls, unless a range in them takes in a bracket.
- OwnOutput.SlipsExactly: the same.
- SaxHandler.InputSitemap.ProduceURLs: the later files are an argument; the caller finds them from what the index listed.
- UrlEscape.Canonicalize: re-encoding of host names with characters from 128 on (IDNA) is left out, and so are the slashes
  that `urlunsplit` adds for an empty host after a scheme such as `http`.
- ExpressionParser.HandleBinary: assigning to an exception parameter, which the scopes would tell, is not warned about.
- UrlBuffer.GetUrl: the base URL is a parameter, as none of the code shown sets it; strings are sequences without the
  terminator. An absolute URL is copied with its own allocation.
- RfcAgreement.ResolvesAsAsked: is about bases with a scheme, as section 5.1 of RFC 3986 demands; for a base that is only a
  path, which the code takes too, RFC 3986 asks for nothing.
- RfcAgreement.AgreesWithRfc: is about bases of the usual form; RfcAgreement.RelativePathAgrees is about all.
- Bytes.ByteBuffer.Copy: what lies behind the other buffer is a parameter; assignment does the same as the constructor,
  and assigning a buffer to itself is left out.
- Buffer sizes are unbounded integers, so overflow of `std::size_t` is left out; so are `print` and the constructor that
  only allocates.
- StreamMessages.StreamEntry: random identifiers and the paths made of them are parameters.
- Jlong.UDivMod: its code is elsewhere in the original; it is given the quotient and remainder of unsigned division.
- Jlong: conversions from and to floating point, `jlong_ISHL` and the bitwise operations; shifts by more than 63 act as
  the code's masking makes them, which `JlongShifts.Effective` says.
- StreamFeed.UrlDataCallback.OnDataAvailable: asks for what makes the loop end, by StreamFeed.UrlDataCallback.ReachesExactly;
  read number `k` belongs to round `k`. COM, messages, creation of the plugin and the plugin's own write result, which the
  original only asserts, are left out; a stream is announced as new at most once, before its first data.
