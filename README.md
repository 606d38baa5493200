# HOCON parser and configuration reader, modelled in Dafny

This project models the core of a HOCON configuration library (the Akka.NET
`Hocon` package): the recursive-descent parser that turns a token stream into a
tree of value nodes, and the `Config` object that answers dotted, quote-aware
paths against that tree, restarting on a chain of fallback configurations.

The model has these parts:

- `wrappers.dfy`: the `Option` and `Result` wrappers, an `Outcome` for methods that only succeed or raise, and one error type. Each error stands for an exception the source throws.
- `tokens.dfy`: the tokenizer's output as an abstract `seq<Token>`. `SpaceOrTab(text)` is a same-line blank run. `NewLine` is a line break or a comment. `PullNext` skips both, and its lookahead predicates are `IsValue`, `IsSpaceOrTab`, `IsComma` and `IsArrayEnd`.
- `values.dfy`: the node model. Every `HoconValue` lives in a store (`seq<Node>`) indexed by node id, so nodes can be updated in place and shared. A node is `Unset`, `Concat(pieces)` (literal text, whitespace runs and arrays) or `Obj(keys, children)` (insertion-ordered keys plus a map). `ValidStore` requires every child to have a larger id than its parent. The small node operations are functions on the store: `NewNode`, `EnsureObject`, `Clear`, `AppendValue` and `GetOrCreateKey`. `Descend` is the walk of one tree, and `Render` is the string a scalar reads as.
- `grammar.dfy`: module `Grammar` defines each production as a function of the store and the remaining tokens. The productions are `ParseText`, `ParseObject` (with its loop `ObjectBody`), `KeyContent`, `ParseValue` (with `ValueLoop`, `PullValue` and `AfterPiece`), `TrailingWhitespace`, `ParseArray` (with `ArrayLoop` and `ArrayElement`) and `IgnoreComma`.
- `parser.dfy`: class `HoconParser.Parser` is the source's parser object. It holds the tokens, a cursor and the node store. Each production is a method with the source's loops, proved to leave exactly the state that the `Grammar` function computes, or to raise the same error.
- `grammar_facts.dfy` and `value_facts.dfy`: what the productions do on concrete shapes of input:
  - merge versus replace;
  - dotted keys versus braces;
  - the last scalar wins;
  - one comma at most;
  - same-line concatenation;
  - one fresh node per array element.

  Also in these files: `Put`, a reference definition of assigning a value at a path, and a document of settings parsed to the same store as one `Put` per setting.
- `paths.dfy`: `SplitDottedPathHonouringQuotes` and `AlternateSelectMany`, with round trips and the examples of the tests.
- `config.dfy`: class `Configuration.Config`, with its constructors, `GetNode` (a loop with a restart on the fallback), `HasPath`, `GetConfig`, the getters' handling of defaults and `AsEnumerable` (nested loops with a `used` set). `Find` is the specification of `GetNode`, and `Entries` together with `FirstWins` is the specification of `AsEnumerable`.
- `config_facts.dfy`: the fallback chain's meaning for `GetNode`, and the first-wins, de-duplicated, chain-ordered enumeration.
- `reading.dfy`: parsing and reading together. The last setting of a document is what `GetString` reads at its path. Earlier paths survive a later setting that adds a key. A dotted path and its braced form read the same.
- `test_inputs.dfy`: two inputs of the library's tests written out token by token, each an instance of the theorems of `reading.dfy`.

A setting (`GrammarFacts.Setting`) is one line `k1.k2... = v` or `k1 { k2 { ... = v } }`. It carries a blank run (spaces, tabs, line breaks or comments) in front of every token the parser reads with `PullNext`, around the `=` and after every `}`, and one more run after the literal. So the theorems about documents hold for any layout the parser accepts, not only for tightly written text.

## Model

| member | source | states |
|---|---|---|
| HoconParser.Parser.Parse | Hocon/HoconParser.cs:30-33 | the root returned is the root of the store `Grammar.ParseText` computes for the tokens, or the same error |
| HoconParser.Parser.ParseText | Hocon/HoconParser.cs:35-43 | a fresh root node, blanks skipped, then the root object body: the result agrees with `Grammar.ParseText`, and on success the root handle is node 0 of the final store |
| HoconParser.Parser.PullWhitespaceAndComments | Hocon/HoconParser.cs:39 | the cursor moves past exactly the leading blank tokens |
| HoconParser.Parser.PullNext | Hocon/HoconParser.cs:61 | the token returned and the cursor after it are those of `Tokens.PullNext` on the remaining tokens |
| HoconParser.Parser.ParseObject | Hocon/HoconParser.cs:45-78 | the store, cursor and outcome are those of `Grammar.ParseObject` for the same owner and `root` flag |
| HoconParser.Parser.ParseKeyContent | Hocon/HoconParser.cs:80-103 | agrees with `Grammar.KeyContent`: a dot nests one level, `=` clears a non-object and reads a value, `{` opens a body |
| HoconParser.Parser.ParseValue | Hocon/HoconParser.cs:112-150 | agrees with `Grammar.ParseValue`, including the end-of-input error, the value loop and the final optional comma |
| HoconParser.Parser.PullValue | Hocon/HoconParser.cs:120-143 | one value token is consumed, and the store change is that of `Grammar.PullValue` (literal, object or array branch) |
| HoconParser.Parser.ParseTrailingWhitespace | Hocon/HoconParser.cs:152-164 | one blank run is consumed, and the store is that of `Grammar.TrailingWhitespace` |
| HoconParser.Parser.IgnoreComma | Hocon/HoconParser.cs:186-190 | the cursor skips one comma if one is next, and nothing else |
| HoconParser.Parser.ParseElement | Hocon/HoconParser.cs:176-179 | a node is created at the end of the store and receives one value; agrees with `Grammar.ArrayElement` |
| HoconParser.Parser.ParseArray | Hocon/HoconParser.cs:171-184 | the elements collected by the loop and the final state agree with `Grammar.ParseArray`, including the error when `]` is missing |
| Grammar.IgnoreComma | Hocon/HoconParser.cs:186-190 | the rest is a suffix of the input; it is exactly one token shorter when a comma is next, and the input itself otherwise |
| Grammar.ParseText | Hocon/HoconParser.cs:35-43 | a successful parse gives a valid store whose node 0 is an object |
| Grammar.ParseObject | Hocon/HoconParser.cs:45-78 | the owner ends as an object; an owner that already was one keeps every key bound to the same child (merge); with `root == false` at most one key is added |
| Grammar.ObjectBody | Hocon/HoconParser.cs:59-77 | the object only grows by keys, never loses one; a non-root body adds at most one key |
| Grammar.KeyContent | Hocon/HoconParser.cs:80-103 | nodes that existed before the key's node are untouched, and nodes are only added |
| Grammar.ParseValue | Hocon/HoconParser.cs:112-150 | end of input raises `UnexpectedEndOfInput`; otherwise nodes before the owner are untouched |
| Grammar.PullValue | Hocon/HoconParser.cs:120-143 | every value token consumes at least one token |
| Grammar.ValueLoop | Hocon/HoconParser.cs:118-149 | on success the store is valid, it only grows, every node numbered below the owner is unchanged, and no more tokens remain than were given |
| Grammar.AppendArray | Hocon/HoconParser.cs:140-142 | on success the store is valid, it only grows, every node numbered below the owner is unchanged, and no more tokens remain than were given |
| Grammar.AfterPiece | Hocon/HoconParser.cs:146 | when a blank run follows the piece exactly that one token is consumed, otherwise the parse state is left as it was; in both cases the store stays valid and nodes below the owner are unchanged |
| Grammar.TrailingWhitespace | Hocon/HoconParser.cs:152-164 | an empty blank run leaves the store as it was; a non-empty run is appended to a non-object owner as a text piece |
| Grammar.ParseArray | Hocon/HoconParser.cs:171-184 | a success consumes at least one token and keeps every earlier node; every element is a distinct node created during the call, in increasing order |
| GrammarFacts.ArrayEndsAtBracket | Hocon/HoconParser.cs:181-184 | on success, the token read last is `]`, and the rest is exactly what follows it in the input |
| GrammarFacts.UnclosedArray | Hocon/HoconParser.cs:174-183 | an input with no `]` never parses as an array; when the element loop ends without error, the failure is `ExpectedArrayEnd` |
| GrammarFacts.ParseArrayRest | Hocon/HoconParser.cs:171-184 | the rest after an array, preceded by `]`, is a suffix of the input |
| GrammarFacts.ObjectBodyRest | Hocon/HoconParser.cs:59-77 | what an object body leaves unread is a suffix of its input |
| GrammarFacts.KeyContentRest | Hocon/HoconParser.cs:80-103 | what a key's content leaves unread is a suffix of its input |
| GrammarFacts.ParseValueRest | Hocon/HoconParser.cs:112-150 | what a value leaves unread is a suffix of its input |
| GrammarFacts.ValueLoopRest | Hocon/HoconParser.cs:118-149 | what the value loop leaves unread is a suffix of its input |
| Grammar.ArrayElement | Hocon/HoconParser.cs:176-179 | each element is a node created for it and consumes at least one token |
| Grammar.ArrayLoop | Hocon/HoconParser.cs:174-180 | the loop stops at end of input or at `]`, and its elements are fresh nodes |
| Values.NewNode | Hocon/HoconParser.cs:176 | a new unset node at the end of the store; every other node unchanged |
| Values.EnsureObject | Hocon/HoconParser.cs:47-57 | an object is kept as it is; anything else becomes an empty object; other nodes unchanged |
| Values.Clear | Hocon/HoconParser.cs:95 | the node holds no piece and no object afterwards; other nodes unchanged |
| Values.AppendValue | Hocon/HoconParser.cs:134 | the piece is added after the node's pieces; other nodes unchanged |
| Values.GetOrCreateKey | Hocon/HoconParser.cs:67 | an existing key yields its existing child and changes nothing; a new key is appended to the key order and bound to a new unset node |
| Values.GetChildObject | Hocon/Config.cs:78 | a child is found exactly when the node is an object that has the key |
| Values.Descend | Hocon/Config.cs:76-86 | the walk of every key from one node; the empty path yields the node itself |
| Values.Render | Hocon/Config.cs:160 | a scalar reads as its text pieces joined and trimmed; `null`, objects and arrays read as no string |
| GrammarFacts.Put | Hocon/HoconParser.cs:66-69 | reference meaning of assigning at a path: result is valid, nodes before the start are untouched, and an object at the start keeps its keys |
| GrammarFacts.PutThenDescend | Hocon/HoconParser.cs:66-69 | after a Put, the path leads to a node holding exactly the assigned value |
| GrammarFacts.PutFresh | Hocon/HoconParser.cs:67 | a Put whose path adds a new key to an existing object changes no earlier node except that object, which keeps every key |
| GrammarFacts.DescendKept | Hocon/Config.cs:76-86 | every path found before such a change still leads to the same node |
| GrammarFacts.PutKeepsPath | Hocon/HoconParser.cs:66-69 | a Put that adds a new key below an existing object leaves every earlier path leading to the same node, which reads the same |
| GrammarFacts.BraceOpen | Hocon/HoconParser.cs:98-100 | `{` after a key, with any blank runs before and after it, opens an object body in the key's node |
| GrammarFacts.BraceClose | Hocon/HoconParser.cs:74-75 | any blank run and then `}` end a body, changing nothing and leaving what follows unread |
| GrammarFacts.AssignLiteral | Hocon/HoconParser.cs:90-97 | `= v` leaves `v` as the node's only piece, whatever it held |
| GrammarFacts.ScalarAssign | Hocon/HoconParser.cs:90-97 | the last scalar assigned wins: the node is replaced by the literal and the rest is left unread |
| GrammarFacts.BodyEnd | Hocon/HoconParser.cs:74-75 | `}` ends the body and changes nothing |
| GrammarFacts.PullNextAfter | Hocon/HoconParser.cs:61 | PullNext returns the first token that is not blank, whatever blank run precedes it |
| GrammarFacts.BodySkipsBlank | Hocon/HoconParser.cs:61-63 | a blank run in front of an object body's next token changes nothing the body computes |
| GrammarFacts.AssignSkipsBlank | Hocon/HoconParser.cs:90-97 | blank runs before and after `=` change nothing the key's content computes |
| GrammarFacts.SpacedAssign | Hocon/HoconParser.cs:90-97 | `= v` with any blank runs around the `=` replaces the node by `v`, plus the same-line run after `v` as a trailing piece; the rest of that run is left unread |
| GrammarFacts.DottedAssign | Hocon/HoconParser.cs:87-89 | `k1.k2... = v`, with any blank run before each dot and key, nests one level per dot and is one Put of `v` at the whole path |
| GrammarFacts.BracedAssign | Hocon/HoconParser.cs:98-100 | `{ k1 { k2 ... = v } }`, with any blank runs around the braces and keys, reaches the same node by the same Put, and leaves only blanks unread before what follows |
| GrammarFacts.GapInvisible | Hocon/HoconParser.cs:152-164 | that trailing whitespace piece does not change the string the node reads as |
| GrammarFacts.TrimWhiteSuffix | Hocon/Config.cs:160 | whitespace appended to a text does not change its trimmed form |
| GrammarFacts.ParseDocument | Hocon.Tests/HoconTests.cs:248-261 | a document of settings, one per line, each with any blank runs the grammar allows, parses to the store given by one Put per setting in order: keys met again are reused, and scalars assigned again are replaced |
| GrammarFacts.ParseTextDocument | Hocon/HoconParser.cs:35-43 | ParseText of such a document is the settings applied to a fresh root object |
| GrammarFacts.DottedEqualsBraced | Hocon.Tests/HoconTests.cs:56-63 | a dotted setting and a braced setting of the same path and literal, each with any blank layout, both parse, both reach a node at the path, and both nodes read as the literal |
| ValueFacts.OneComma | Hocon/HoconParser.cs:149 | a comma after a literal ends the value and is consumed, and a second comma is left unread |
| ValueFacts.LiteralReplacesObject | Hocon/HoconParser.cs:126-134 | a literal written into a node holding an object replaces the object |
| ValueFacts.ObjectMerges | Hocon/HoconParser.cs:137-139 | `{ k = v }` as a value is put into the owner's object, which keeps every key it had |
| ValueFacts.OneKeyBody | Hocon/HoconParser.cs:59-77 | the body `k = v }` is one Put of `v` at `k`, and reading stops after `}` |
| ValueFacts.SpacedValue | Hocon/HoconParser.cs:118-147 | literals separated by same-line blanks make one value, whose pieces are the literals and the blank runs in order |
| ValueFacts.SpacedRender | Hocon.Tests/HoconTests.cs:225-229 | such a value reads as the literals joined by the blank runs, trimmed (`a=1 2 3` reads `1 2 3`) |
| ValueFacts.SpacedArray | Hocon.Tests/HoconTests.cs:120-151 | `[1 2 3 4]` gives one element, a new node holding every piece |
| ValueFacts.ItemsArray | Hocon.Tests/HoconTests.cs:120-151 | `[1,2,3,4]`, or the same literals one per line, gives one new node per literal, numbered in order, each holding that literal |
| Paths.SplitOn | Hocon/Config.cs:406 | `Split('"')`: the pieces joined back give the string, and no piece holds the separator |
| Paths.SplitJoin | Hocon/Config.cs:406 | splitting undoes joining when no piece holds the separator |
| Paths.DropEmpty | Hocon/Config.cs:408 | `RemoveEmptyEntries`: only non-empty pieces remain, and each comes from the input |
| Paths.DropEmptyAppend | Hocon/Config.cs:408 | dropping distributes over concatenation: the kept pieces stay in their order, each as often as it occurs |
| Paths.DropEmptyOne | Hocon/Config.cs:408 | a single piece is dropped exactly when it is empty |
| Paths.DropEmptyKeeps | Hocon/Config.cs:408 | every non-empty piece survives, and nothing is dropped when no piece is empty |
| Paths.AlternateSelectManyIndexed | Hocon/Config.cs:412-416 | the recursive definition equals SelectMany with the selector picked by each index's parity |
| Paths.OutsideQuotes | Hocon/Config.cs:408 | keys cut from outside quotes are never empty and never hold a dot |
| Paths.SplitDottedPathHonouringQuotes | Hocon/Config.cs:404-410 | no key holds a quote character |
| Paths.QuotedParts | Hocon/Config.cs:404-410 | a path is the alternation of its parts between quotes: even parts split on dots, odd parts kept whole, even when empty |
| Paths.DottedRoundTrip | Hocon/Config.cs:404-410 | keys joined with dots split back into the same keys, when each is non-empty and holds no dot or quote |
| Paths.QuotedKey | Hocon/Config.cs:409 | a quoted key is one key, dots and all |
| Paths.QuotedMiddle | Hocon/Config.cs:404-410 | `a."m".d` splits to `[a, m, d]`, and the dots next to the quotes leave no empty key |
| Paths.QuotedPathExample | Hocon.Tests/HoconTests.cs:405-418 | `a."/abc/d.ev/*".d` splits to `["a", "/abc/d.ev/*", "d"]` |
| Paths.NumberPath | Hocon.Tests/HoconTests.cs:17-23 | `3.14` splits to `["3", "14"]` |
| Configuration.Config.Empty | Hocon/Config.cs:23-25 | no root and no fallback |
| Configuration.Config.OfNode | Hocon/Config.cs:32-38 | the root is the given node and there is no fallback |
| Configuration.Config.Layered | Hocon/Config.cs:46-53 | the root is the source's root, and the fallback is stored unchanged |
| Configuration.Config.FromRoot | Hocon/Config.cs:32-38 | a missing root value raises `NullArgument`; otherwise a new configuration on that root without fallback |
| Configuration.Config.FromSource | Hocon/Config.cs:46-53 | a null source raises `NullArgument`; otherwise a new configuration sharing the source's root, with the given fallback |
| Configuration.Config.Chain | Hocon/Config.cs:58 | the configurations reached by following Fallback, starting with this one and ending with one without a fallback |
| Configuration.Config.Find | Hocon/Config.cs:71-89 | a missing root raises `NullRoot`; the empty path yields the root; any node found is valid; no other error |
| Configuration.Config.GetNode | Hocon/Config.cs:71-89 | the loop walks the keys from Root and restarts the whole path on Fallback at the first miss; the result equals `Find` |
| Configuration.Config.HasPath | Hocon/Config.cs:373-377 | true exactly when GetNode finds a node; raises when GetNode raises |
| Configuration.Config.GetConfig | Hocon/Config.cs:303-312 | null exactly when GetNode finds nothing; otherwise a new configuration whose root is that very node and whose fallback is null |
| Configuration.Config.GetString | Hocon/Config.cs:154-161 | the default exactly when GetNode finds nothing; otherwise the node's string |
| Configuration.Config.GetInt | Hocon/Config.cs:124-131 | the default when GetNode finds nothing; otherwise the node's conversion |
| Configuration.Config.GetBoolean | Hocon/Config.cs:97-104 | the default when GetNode finds nothing; otherwise the node's conversion |
| Configuration.Config.GetStringList | Hocon/Config.cs:290-295 | the empty list when GetNode finds nothing; otherwise the strings of the node's elements |
| Configuration.Config.Entries | Hocon/Config.cs:384-399 | a missing root raises `NullRoot`; a root that is not an object raises `NotAnObject` |
| Configuration.Config.AsEnumerable | Hocon/Config.cs:384-399 | the nested loops yield the chain's entries with every already-used key dropped, or raise the error the walk meets |
| Configuration.Items | Hocon/Config.cs:390 | one entry per key of the root object, in key order, with the raw key and its child |
| ConfigFacts.FoundInFirstHolder | Hocon/Config.cs:71-89 | a found node comes from the first configuration of the chain whose own tree holds the whole path; every earlier one has a root and misses the path |
| ConfigFacts.MissingEverywhere | Hocon/Config.cs:79-84 | GetNode finds nothing exactly when every configuration of the chain has a root and misses the path |
| ConfigFacts.RaisesAtRootless | Hocon/Config.cs:75 | when GetNode raises, the walk reached a configuration without a root |
| ConfigFacts.RootlessRaises | Hocon/Config.cs:75 | when the walk reaches a configuration without a root, GetNode raises |
| ConfigFacts.PrimaryWins | Hocon/Config.cs:76-88 | a path found in the primary tree is answered from it, and the fallback is never consulted |
| ConfigFacts.DescendAppend | Hocon/Config.cs:76-86 | walking `p + q` is walking `p`, then `q` from where `p` ends |
| ConfigFacts.SubConfig | Hocon/Config.cs:303-312 | the configuration GetConfig(p) returns finds for `q` what the walk of `q` finds in the subtree, and the original finds the same node for `p + q` |
| ConfigFacts.FirstWinsUnique | Hocon/Config.cs:386-395 | each key is yielded at most once, and the yielded keys are exactly the unused ones |
| ConfigFacts.FirstWinsFirst | Hocon/Config.cs:390-394 | every yielded entry is the first entry with its key: the nearest configuration wins |
| ConfigFacts.FirstWinsAppend | Hocon/Config.cs:388-398 | the chain's order is kept: everything from the first part comes before what later parts add |
| ConfigFacts.FirstWinsDistinct | Hocon/Config.cs:390-394 | entries with distinct, unused keys are all yielded unchanged and in order |
| ConfigFacts.ItemsDistinct | Hocon/Config.cs:390 | the entries of one object have distinct keys |
| ConfigFacts.SingleEnumeration | Hocon.Tests/HoconTests.cs:422-453 | without a fallback, the enumeration is the root object's raw keys in insertion order, so quoted keys with dots come back verbatim |
| ConfigFacts.LayeredEnumeration | Hocon/Config.cs:384-399 | with a fallback, all of the root's entries come first, then the fallback's enumeration without the keys already yielded |
| Reading.LastSettingWins | Hocon.Tests/HoconTests.cs:491-503 | in a parsed document of settings with any blank layout, the configuration finds the last setting's own value at its path, whatever earlier settings assigned there |
| Reading.GetStringReadsLastSetting | Hocon.Tests/HoconTests.cs:491-503 | the document parses, and GetString at the last setting's dotted path returns its literal, trimmed, or no string for `null`, for every default |
| Reading.EarlierPathKept | Hocon.Tests/HoconTests.cs:248-261 | a later setting that adds a new key under an existing object leaves every earlier path leading to the same node and reading the same |
| Reading.DottedAndBracedRead | Hocon.Tests/HoconTests.cs:56-63 | the dotted form and the braced form of a path, each with any blank layout, parse, and GetString reads the same at that path for every default: the setting's literal |
| TestInputs.FooBarBazDottedTokens | Hocon.Tests/HoconTests.cs:59 | `foo.bar.baz : 42` is a valid dotted setting and these are its tokens |
| TestInputs.FooBarBazBracedTokens | Hocon.Tests/HoconTests.cs:60 | `foo { bar { baz : 42 } }` is a valid braced setting and these are its tokens |
| TestInputs.FooBarBazRead | Hocon.Tests/HoconTests.cs:56-63 | both inputs parse, and GetString("foo.bar.baz") reads "42" from each |
| TestInputs.OverwriteDocument | Hocon.Tests/HoconTests.cs:494-500 | the test's two-line input, blank lines and indentation included, is the document of a braced and a dotted setting |
| TestInputs.OverwriteRead | Hocon.Tests/HoconTests.cs:491-503 | that document parses, and GetString("test.value") reads "456": the later setting overwrites the earlier one |

## Left out

- The tokenizer (`HoconTokenizer`) is not part of this model. Its output is an arbitrary token sequence, so lexing of quoted, triple-quoted and unquoted literals, escapes and comments is not modelled. Its lookahead and pull operations are functions of the remaining tokens.
- The node classes (`HoconValue`, `HoconObject`, `HoconArray`, `HoconLiteral`) are not part of this model. Their operations are rebuilt from how the parser and `Config` use them.
- Values.Render: the source's `HoconValue.GetString` is not part of this model. Render joins literal and whitespace pieces, trims the characters space, tab, CR and LF, and reads `null` as no string. Other Unicode whitespace is not trimmed.
- Configuration.Config.GetInt: the text-to-integer conversion belongs to the unseen value class. The caller supplies it as a parameter, so 32-bit overflow and the format rules are not modelled.
- Configuration.Config.GetBoolean: likewise, the `true`/`on`/`false`/`off` conversion is a caller-supplied parameter.
- Configuration.Config.GetStringList: it reads the elements of the node's array pieces. Any other list conversion of the value class is not modelled.
- `GetFloat`, `GetDouble`, `GetDecimal`, `GetLong`, `GetTimeSpan`, `GetMillisDuration`, `GetByteSize`, the other list getters and `GetValue` are left out. They are unit or floating-point parsing in the value class, or plain forwarding to `GetNode`.
- `ToString` and `IsEmpty` are left out: they render the tree in the value classes' own text form.
- `ConfigurationFactory.ParseString` and the `HoconRoot` holder are thin wrappers. `HoconRoot` is a one-field datatype, and `Parse` followed by `FromRoot` is what `ParseString` does.
- Configuration.Config.AsEnumerable: the lazy `yield` is modelled as a finite sequence built eagerly. An error raised partway (a fallback without a root) is therefore reported for the whole enumeration, and the pairs yielded before it are not modelled.
- Exception types and messages are reduced to the constructors of one `Error` datatype.
- Grammar.ArrayElement: where the source loops forever, the model reports `Stalled` instead of diverging. That happens when an array holds a token that is neither a value nor `]`, such as `[ } ]`: `ParseValue` then consumes nothing.
- Values.AppendValue: a piece appended to a node that holds an object is dropped, and the object is left as it is. In the source the node (`HoconValue`) keeps the piece after the object. How the source's reads treat such a node belongs to `HoconValue`, which is not part of this model. For `a = {x=1} [1,2]` the model's GetStringList("a") returns the empty list, where the source may see the array.
- Grammar.ParseArray: its own contract states progress, the frame and the fresh elements. That the token read last is `]`, and that a missing `]` gives `ExpectedArrayEnd`, are stated by GrammarFacts.ArrayEndsAtBracket and GrammarFacts.UnclosedArray, which keeps the function's own proof small.
- Grammar.ValueLoop: its own contract states the frame only. That the unread tokens are a suffix is stated by GrammarFacts.ValueLoopRest, and the pieces it collects by ValueFacts.SpacedValue and ValueFacts.OneComma.
- Grammar.AppendArray: its own contract states the frame only. The owner's new content is that of Values.AppendValue, and the consumed `]` is stated by GrammarFacts.ParseArrayRest and GrammarFacts.ArrayEndsAtBracket.
- Paths.DropEmpty: its own contract states membership only. Order and multiplicity are stated by Paths.DropEmptyAppend, which together with Paths.DropEmptyOne determines the function completely.
- TestInputs: the tokens of the two test inputs are written by hand, as the tokenizer is not part of this model. `Can_overwrite_value` reads with `GetInt`, whose conversion is a parameter here, so the model reads the same node with `GetString`.
- The current-path strings the parser threads through its productions are left out: they are only used for diagnostics.
- Configuration.Config: `Valid()` bounds the fallback chain by a ghost depth, so chains are finite and acyclic. The source cannot build a cycle either, because `Fallback` is fixed at construction.

## Where the code departs from the usual description of the format

- HOCON is usually described as clearing, on an array assignment, a node that held an object. In the code, `=` clears only a node that is not an object (Hocon/HoconParser.cs:92-95), and an appended array does not turn an object back into a scalar. The model follows the code, as described under `Values.AppendValue` above.
- `ParseArray` is usually described as repeating until the array end. The code also stops at end of input and then requires `]` (Hocon/HoconParser.cs:174-182). The model raises `ExpectedArrayEnd` in that case.
