# Kotlin DSL test suite: a Dafny model of its builder, checks and name helper

The test class `KtDslFuncTest` demonstrates Kotlin DSL syntax. Three pieces of it
have behaviour of their own, and this project models those three:

- **The HTML-style builder.** A `Tag` has a name and an ordered list of item tags.
  `addItem` runs the child's configuration block, then appends the child. `toString`
  writes `<name>`, then every item's rendering, then `</name>`. The typed builders
  `TABLE.tr` and `TR.td` and the entry point `table` fix the nesting.
- **The infix assertion wrapper.** `StartWrapper.with(prefix)` and
  `StartWrapper.endsWith(suffix)` return normally or throw an `AssertionError`.
  `should()` / `should(start)` make the wrapper.
- **`computeName`.** It is `substringBefore("@")`: the text before the first `@`,
  or the whole string when there is no `@`.

Modules:

- `Markup` (`markup.dfy`): the `Tag` datatype, `AddItem`, and `Render` / `RenderItems`
  for `toString` and `joinToString("")`.
- `MarkupParse` (`markup_parse.dfy`): a reader that inverts `Render`. It shows that the
  markup determines the tree whenever no tag name contains `<`, `>` or `/`.
- `TableBuilder` (`table_builder.dfy`): the typed builders. A configuration block is
  the ordered list of builder calls it makes (`Td(init)` / `Tr(init)`).
- `Should` (`should.dfy`): `StartWrapper`, `With`, `EndsWith`. A thrown `AssertionError`
  becomes `Fail(message)`, with the source's message text.
- `Users` (`users.dfy`): Java/Kotlin `indexOf` on a string delimiter, `substringBefore`,
  `computeName`, and the two users of the member-extension test.

How blocks resolve. The source has no DSL scope marker. So an unqualified call inside a
lambda with receiver goes to the innermost implicit receiver that has that member:

- inside `td { }`, a `td { }` call goes to the enclosing TR;
- inside `td { }`, a `tr { }` call goes to the TABLE.

The model keeps this. A block runs against two receivers, the table and the innermost
row. `addItem` configures the item before appending it. So anything a block adds through
an outer receiver lands *before* the item: `table { tr { td { tr { } } } }` renders as
`<table><tr></tr><tr><td></td></tr></table>`.

Two points where the code does more than a first reading of it suggests:

- `addItem` does not always grow the parent's list by exactly one. The parent also gets
  whatever the child's block added to it through an outer receiver, and those items land
  before the child. `Grew` and `TableTrGrows` state this general case.
  `DirectTableShape` states the exactly-one-per-call result for blocks that only call
  their own receiver.
- `toString` renders any name, the empty name included, and `RenderEmpty` holds for
  every name.

Rendering is a pure function of the tree, so rendering the same tree twice gives the
same string by construction.

## Model

| member | source | states |
|---|---|---|
| Markup.NewTag | feya/applications/app.kotlin/src/test/kotlin/com/kaedea/kotlin/KotlinDSLTest.kt:241-242 | a new tag carries the given name and starts with no items |
| Markup.AddItem | feya/applications/app.kotlin/src/test/kotlin/com/kaedea/kotlin/KotlinDSLTest.kt:245 | appending keeps the name, grows the item list by one, leaves every earlier item unchanged and puts the new item last |
| Markup.Render | feya/applications/app.kotlin/src/test/kotlin/com/kaedea/kotlin/KotlinDSLTest.kt:248 | `toString`. Its contract is in the lemmas: a tag with no items renders as `<name></name>` (`RenderEmpty`); one or two items render in order inside the frame (`RenderSingle`, `RenderPair`); an append adds exactly the item's markup before the close tag (`RenderAddItem`); and for valid names the rendering determines the tree (`MarkupParse.ParseRender`, `MarkupParse.RenderInjective`) |
| Markup.RenderItems | feya/applications/app.kotlin/src/test/kotlin/com/kaedea/kotlin/KotlinDSLTest.kt:248 | `joinToString("")` over the items. `RenderItemsAppend` states that joining a concatenation of lists is the concatenation of the joins |
| Markup.RenderItemsAppend | feya/applications/app.kotlin/src/test/kotlin/com/kaedea/kotlin/KotlinDSLTest.kt:248 | joining item renderings with the empty separator turns list concatenation into string concatenation |
| Markup.RenderEmpty | feya/applications/app.kotlin/src/test/kotlin/com/kaedea/kotlin/KotlinDSLTest.kt:248 | a tag with no items renders as `<name></name>`, for every name |
| Markup.RenderSingle | feya/applications/app.kotlin/src/test/kotlin/com/kaedea/kotlin/KotlinDSLTest.kt:248 | a tag with one item renders as that item's markup framed by the open and close tags |
| Markup.RenderPair | feya/applications/app.kotlin/src/test/kotlin/com/kaedea/kotlin/KotlinDSLTest.kt:248 | a tag with two items renders both, in insertion order, inside its open and close tags |
| Markup.RenderAddItem | feya/applications/app.kotlin/src/test/kotlin/com/kaedea/kotlin/KotlinDSLTest.kt:243-248 | after an item is appended, the rendering is the old items' markup followed by the new item's markup, framed by the parent's tags |
| Markup.MaxDepth | feya/applications/app.kotlin/src/test/kotlin/com/kaedea/kotlin/KotlinDSLTest.kt:242 | the depth of a list of items bounds each item's depth, and is 0 exactly for no items |
| Markup.MaxDepthReached | feya/applications/app.kotlin/src/test/kotlin/com/kaedea/kotlin/KotlinDSLTest.kt:242 | some item of a non-empty list reaches the list's depth, so that depth is the least bound on its items |
| MarkupParse.NameLength | feya/applications/app.kotlin/src/test/kotlin/com/kaedea/kotlin/KotlinDSLTest.kt:248 | the reader's name scan stops at the first character that cannot be part of a name |
| MarkupParse.ParseTagRender | feya/applications/app.kotlin/src/test/kotlin/com/kaedea/kotlin/KotlinDSLTest.kt:248 | reading a valid tree's rendering followed by any text gives back the tree and exactly that text |
| MarkupParse.ParseItemsRender | feya/applications/app.kotlin/src/test/kotlin/com/kaedea/kotlin/KotlinDSLTest.kt:248 | reading the joined renderings of valid items, then a close tag, gives back the items in order and stops at the close tag |
| MarkupParse.ParseRender | feya/applications/app.kotlin/src/test/kotlin/com/kaedea/kotlin/KotlinDSLTest.kt:248 | a valid tree is recovered from its rendering alone, with nothing left over |
| MarkupParse.RenderInjective | feya/applications/app.kotlin/src/test/kotlin/com/kaedea/kotlin/KotlinDSLTest.kt:248 | two valid trees render to the same string if and only if they are the same tree |
| TableBuilder.Table | feya/applications/app.kotlin/src/test/kotlin/com/kaedea/kotlin/KotlinDSLTest.kt:261 | every tree `table` builds is a table of TRs whose items are empty TDs, at most three levels deep |
| TableBuilder.NewTd | feya/applications/app.kotlin/src/test/kotlin/com/kaedea/kotlin/KotlinDSLTest.kt:251 | `TD()` is a cell named `td` with no items |
| TableBuilder.NewTr | feya/applications/app.kotlin/src/test/kotlin/com/kaedea/kotlin/KotlinDSLTest.kt:253 | `TR()` is a row named `tr` with no cells yet |
| TableBuilder.NewTable | feya/applications/app.kotlin/src/test/kotlin/com/kaedea/kotlin/KotlinDSLTest.kt:257 | `TABLE()` is a table named `table` with no rows yet |
| TableBuilder.TableTr | feya/applications/app.kotlin/src/test/kotlin/com/kaedea/kotlin/KotlinDSLTest.kt:258 | `TABLE.tr`. `TableTrGrows` states it keeps the earlier rows, appends what its block sent to the table and then the new row last; `TableTrShape` that it adds only TRs; `DirectTableTr` that with n empty `td { }` calls it appends a TR of n TDs |
| TableBuilder.RowTd | feya/applications/app.kotlin/src/test/kotlin/com/kaedea/kotlin/KotlinDSLTest.kt:254 | `TR.td`. `RunCallGrows` states it appends one TD to the row after whatever its block added; `RunCallShape` that it keeps both receivers well shaped |
| TableBuilder.RunCall | feya/applications/app.kotlin/src/test/kotlin/com/kaedea/kotlin/KotlinDSLTest.kt:243-246 | one builder call resolved to the innermost receiver that has it. `RunCallGrows` and `RunCallShape` state its effect on the table and the row |
| TableBuilder.RunBlock | feya/applications/app.kotlin/src/test/kotlin/com/kaedea/kotlin/KotlinDSLTest.kt:244 | running `init` on the new item: its calls in order. `RunBlockGrows` states the table, row and cell counts it adds; `RunBlockShape` that it keeps both receivers well shaped |
| TableBuilder.RunTableBlock | feya/applications/app.kotlin/src/test/kotlin/com/kaedea/kotlin/KotlinDSLTest.kt:261 | `TABLE().apply(init)` on a table block. `RunTableBlockCounts` states one TR per `tr` call and one TD per `td` call; `RunTableBlockShape` that the table stays well shaped |
| TableBuilder.RunBlockShape | feya/applications/app.kotlin/src/test/kotlin/com/kaedea/kotlin/KotlinDSLTest.kt:253-259 | any sequence of builder calls keeps the table holding only TRs and the row holding only empty TDs |
| TableBuilder.RunCallShape | feya/applications/app.kotlin/src/test/kotlin/com/kaedea/kotlin/KotlinDSLTest.kt:254 | one `td` or `tr` call, with any nested block, keeps both receivers well shaped |
| TableBuilder.TableTrShape | feya/applications/app.kotlin/src/test/kotlin/com/kaedea/kotlin/KotlinDSLTest.kt:258 | `TABLE.tr` adds only TRs to the table, whatever its block does |
| TableBuilder.RunTableBlockShape | feya/applications/app.kotlin/src/test/kotlin/com/kaedea/kotlin/KotlinDSLTest.kt:257-261 | a table block applied to a well-shaped table leaves it well shaped |
| TableBuilder.TableDepth | feya/applications/app.kotlin/src/test/kotlin/com/kaedea/kotlin/KotlinDSLTest.kt:251-259 | a table-shaped tree is at most three levels deep |
| Markup.MaxDepthBound | feya/applications/app.kotlin/src/test/kotlin/com/kaedea/kotlin/KotlinDSLTest.kt:242 | when every item is at most k deep, so is the list of items |
| TableBuilder.CellsAppend | feya/applications/app.kotlin/src/test/kotlin/com/kaedea/kotlin/KotlinDSLTest.kt:245 | appending a row adds exactly its item count to the total number of items across rows |
| TableBuilder.RunBlockGrows | feya/applications/app.kotlin/src/test/kotlin/com/kaedea/kotlin/KotlinDSLTest.kt:243-246 | a block's calls keep both receivers' names and earlier items, and add one TR per `tr` call, one TD to the row per `td` call that reaches it, and one TD elsewhere per other `td` call |
| TableBuilder.RunCallGrows | feya/applications/app.kotlin/src/test/kotlin/com/kaedea/kotlin/KotlinDSLTest.kt:254 | the same accounting for a single call and its nested block |
| TableBuilder.TableTrGrows | feya/applications/app.kotlin/src/test/kotlin/com/kaedea/kotlin/KotlinDSLTest.kt:243-246 | `tr` keeps the table's name and earlier items. It appends exactly what its block sent to the table, then the new TR last. That TR is named `tr` and holds one TD per `td` call of its own block |
| TableBuilder.RunTableBlockCounts | feya/applications/app.kotlin/src/test/kotlin/com/kaedea/kotlin/KotlinDSLTest.kt:257-261 | a table block adds one TR per `tr` call and one TD per `td` call, at any nesting depth |
| TableBuilder.TableCounts | feya/applications/app.kotlin/src/test/kotlin/com/kaedea/kotlin/KotlinDSLTest.kt:261 | the built table holds exactly one TR per `tr` call and, across its rows, exactly one TD per `td` call |
| TableBuilder.EmptyTds | feya/applications/app.kotlin/src/test/kotlin/com/kaedea/kotlin/KotlinDSLTest.kt:251 | the list of n fresh TDs has length n |
| TableBuilder.DirectRowRun | feya/applications/app.kotlin/src/test/kotlin/com/kaedea/kotlin/KotlinDSLTest.kt:254 | a row block of n empty `td { }` calls appends exactly n TDs to the row and leaves the table unchanged |
| TableBuilder.DirectTableTr | feya/applications/app.kotlin/src/test/kotlin/com/kaedea/kotlin/KotlinDSLTest.kt:258 | `tr` with a block of n empty `td { }` calls appends one TR holding exactly n TDs |
| TableBuilder.DirectTableRun | feya/applications/app.kotlin/src/test/kotlin/com/kaedea/kotlin/KotlinDSLTest.kt:258 | a direct table block appends one TR per call, in call order, each with as many TDs as its block has calls, and keeps the earlier items |
| TableBuilder.DirectTableShape | feya/applications/app.kotlin/src/test/kotlin/com/kaedea/kotlin/KotlinDSLTest.kt:243-261 | when every block calls only its own receiver, each call adds exactly one child, last, in call order |
| TableBuilder.BlockOf | feya/applications/app.kotlin/src/test/kotlin/com/kaedea/kotlin/KotlinDSLTest.kt:257-259 | the block written out from a tree is direct and makes one `tr` call per row |
| TableBuilder.EmptyTdsAreTds | feya/applications/app.kotlin/src/test/kotlin/com/kaedea/kotlin/KotlinDSLTest.kt:251 | every entry of the list of fresh TDs is an empty TD |
| TableBuilder.TrIsEmptyTds | feya/applications/app.kotlin/src/test/kotlin/com/kaedea/kotlin/KotlinDSLTest.kt:253 | a TR holding only empty TDs is determined by how many it holds |
| TableBuilder.TableOfBlockOf | feya/applications/app.kotlin/src/test/kotlin/com/kaedea/kotlin/KotlinDSLTest.kt:261 | every table-shaped tree is what `table` builds from the block written out from that tree |
| TableBuilder.BlockOfTable | feya/applications/app.kotlin/src/test/kotlin/com/kaedea/kotlin/KotlinDSLTest.kt:261 | a direct block is recovered from the tree `table` builds from it |
| TableBuilder.TableBuildsExactlyTables | feya/applications/app.kotlin/src/test/kotlin/com/kaedea/kotlin/KotlinDSLTest.kt:251-261 | a tree can be built by `table` if and only if it is table-shaped |
| TableBuilder.TableIsValid | feya/applications/app.kotlin/src/test/kotlin/com/kaedea/kotlin/KotlinDSLTest.kt:251-257 | the tag names table, tr and td can be read back from markup |
| TableBuilder.TableRenderDeterminesTree | feya/applications/app.kotlin/src/test/kotlin/com/kaedea/kotlin/KotlinDSLTest.kt:248 | two table blocks render to the same markup if and only if they build the same tree |
| TableBuilder.RenderTableTrTd | feya/applications/app.kotlin/src/test/kotlin/com/kaedea/kotlin/KotlinDSLTest.kt:229-237 | `table { tr { td { } } }` renders to exactly `<table><tr><td></td></tr></table>` |
| TableBuilder.RenderOuterReceiverCall | feya/applications/app.kotlin/src/test/kotlin/com/kaedea/kotlin/KotlinDSLTest.kt:243-246 | because `addItem` configures before it appends, a `tr` written inside a `td` renders before the row that encloses it |
| TableBuilder.OuterReceiverTree | feya/applications/app.kotlin/src/test/kotlin/com/kaedea/kotlin/KotlinDSLTest.kt:243-246 | the tree built for `table { tr { td { tr { } } } }` is a childless TR followed by a TR holding one TD |
| TableBuilder.RenderTwoRows | feya/applications/app.kotlin/src/test/kotlin/com/kaedea/kotlin/KotlinDSLTest.kt:248 | the markup of a table holding an empty row and then a one-cell row |
| TableBuilder.RenderEmptyRow | feya/applications/app.kotlin/src/test/kotlin/com/kaedea/kotlin/KotlinDSLTest.kt:248 | an empty TR renders as `<tr></tr>` |
| TableBuilder.RenderOneCellRow | feya/applications/app.kotlin/src/test/kotlin/com/kaedea/kotlin/KotlinDSLTest.kt:248 | a TR holding one empty TD renders as `<tr><td></td></tr>` |
| TableBuilder.RenderOneCell | feya/applications/app.kotlin/src/test/kotlin/com/kaedea/kotlin/KotlinDSLTest.kt:248 | a table holding one one-cell row renders as `<table><tr><td></td></tr></table>` |
| Should.HasPrefix | feya/applications/app.kotlin/src/test/kotlin/com/kaedea/kotlin/KotlinDSLTest.kt:204 | the character-by-character `startsWith` holds exactly when the prefix is a prefix of the value |
| Should.HasSuffix | feya/applications/app.kotlin/src/test/kotlin/com/kaedea/kotlin/KotlinDSLTest.kt:209 | `endsWith` holds exactly when the suffix fits in the value and equals its last characters |
| Should.ShouldOf | feya/applications/app.kotlin/src/test/kotlin/com/kaedea/kotlin/KotlinDSLTest.kt:214-218 | `should()` and `should(start)` wrap the string; `With`, `EndsWith` and `KotlinChecks` state what the wrapper then does |
| Should.With | feya/applications/app.kotlin/src/test/kotlin/com/kaedea/kotlin/KotlinDSLTest.kt:203-206 | `with` passes exactly when the value starts with the prefix, and otherwise fails with "<value> does not start with <prefix> !" |
| Should.EndsWith | feya/applications/app.kotlin/src/test/kotlin/com/kaedea/kotlin/KotlinDSLTest.kt:208-211 | `endsWith` passes exactly when the value ends with the suffix, and otherwise fails with "<value> does not ends with <suffix> !" |
| Should.WithPassesIffPrefixed | feya/applications/app.kotlin/src/test/kotlin/com/kaedea/kotlin/KotlinDSLTest.kt:203-206 | `with` passes if and only if the value is the prefix followed by some text |
| Should.EndsWithPassesIffSuffixed | feya/applications/app.kotlin/src/test/kotlin/com/kaedea/kotlin/KotlinDSLTest.kt:208-211 | `endsWith` passes if and only if the value is some text followed by the suffix |
| Should.SplitPassesBoth | feya/applications/app.kotlin/src/test/kotlin/com/kaedea/kotlin/KotlinDSLTest.kt:202-212 | a concatenation passes `with` its front and `endsWith` its back |
| Should.KotlinChecks | feya/applications/app.kotlin/src/test/kotlin/com/kaedea/kotlin/KotlinDSLTest.kt:186-200 | "kotlin" passes `with` "kot" and `endsWith` "in", and fails `endsWith` "kot" |
| Users.IndexOfFrom | feya/applications/app.kotlin/src/test/kotlin/com/kaedea/kotlin/KotlinDSLTest.kt:106 | the search from an index returns the first occurrence at or after it, or -1 exactly when there is none there |
| Users.IndexOf | feya/applications/app.kotlin/src/test/kotlin/com/kaedea/kotlin/KotlinDSLTest.kt:106 | `indexOf` is -1 exactly when the delimiter does not occur, and otherwise is its first occurrence |
| Users.SubstringBefore | feya/applications/app.kotlin/src/test/kotlin/com/kaedea/kotlin/KotlinDSLTest.kt:106 | `substringBefore` is the missing-delimiter value when the delimiter does not occur, and otherwise the prefix that ends where the delimiter first occurs |
| Users.OccursAtChar | feya/applications/app.kotlin/src/test/kotlin/com/kaedea/kotlin/KotlinDSLTest.kt:106 | the one-character delimiter "@" occurs exactly at the positions holding '@' |
| Users.ContainsChar | feya/applications/app.kotlin/src/test/kotlin/com/kaedea/kotlin/KotlinDSLTest.kt:106 | the string "@" occurs in a string exactly when the character '@' does |
| Users.ComputeName | feya/applications/app.kotlin/src/test/kotlin/com/kaedea/kotlin/KotlinDSLTest.kt:104-107 | the name is a prefix of the address with no '@'; it is shorter than the address exactly when the address holds an '@', and then the next character is that first '@' |
| Users.ComputeNameUnique | feya/applications/app.kotlin/src/test/kotlin/com/kaedea/kotlin/KotlinDSLTest.kt:106 | those properties leave exactly one possible name |
| Users.NameBeforeAt | feya/applications/app.kotlin/src/test/kotlin/com/kaedea/kotlin/KotlinDSLTest.kt:106 | an address written as an '@'-free name, '@' and a domain yields exactly that name |
| Users.MemberExtensionNames | feya/applications/app.kotlin/src/test/kotlin/com/kaedea/kotlin/KotlinDSLTest.kt:91-102 | the user built from "kidhaibara@gmail.com" is named "kidhaibara" and the guest is named "guest" |
| Users.NewUser | feya/applications/app.kotlin/src/test/kotlin/com/kaedea/kotlin/KotlinDSLTest.kt:104-105 | `User(email)` computes its name from the address; `ComputeName` states what that name is and `MemberName` gives the test's case |
| Users.NewGuest | feya/applications/app.kotlin/src/test/kotlin/com/kaedea/kotlin/KotlinDSLTest.kt:97-100 | `Guest()` overrides `name` with the name computed from "guest@xxx.com"; `GuestName` states it is "guest" |
| Users.MemberName | feya/applications/app.kotlin/src/test/kotlin/com/kaedea/kotlin/KotlinDSLTest.kt:92-95 | the user built from "kidhaibara@gmail.com" is named "kidhaibara" |
| Users.GuestName | feya/applications/app.kotlin/src/test/kotlin/com/kaedea/kotlin/KotlinDSLTest.kt:97-101 | the guest's overriding name is "guest" |

## Left out

- `days`, `ago` and `agos` and the date test (lines 58-85): they read the wall clock through `LocalDate.now()` and use `java.time.Period` arithmetic, which are not part of this model.
- The `uri { ... }` builder (lines 34-50): it only assigns fields of a `Uri` class that is not part of this model.
- `DependencyHandler`, `dependencies`, `compile` and `invoke` (lines 113-179): `compile` returns its argument and `invoke` runs the block, so there is nothing beyond call syntax to model.
- `should(start)` (line 218) and the `start` object: the overload does exactly what `should()` does, so `Should.ShouldOf` models both.
- Kotlin's receiver-lambda, infix and operator call syntax: these become ordinary functions, and a block becomes its list of builder calls.
- Statements in a block other than `td`/`tr` calls: a nested `table { }` call whose result is discarded (its block's `td` calls still reach the enclosing TR, because TABLE has no `td`), `this@label` calls on a named receiver, and arbitrary code. Only builder calls on implicit receivers are modelled.
- Object identity and mutation: tags are immutable values. For blocks made only of builder calls this loses nothing observable: every tag is appended after its block ends, and no reference to it survives. Code that keeps a receiver (`tr { row = this }`) and later calls `row.td { }` changes a row already in the table. That is arbitrary code and is not modelled.
- The JUnit harness: `assertEquals`, `fail` and the try/catch around the failing check become the lemmas' equalities and the `Fail` outcome. The source test (lines 195-199) catches `Error`, which includes the `AssertionError` that `fail()` throws, so it cannot detect an `endsWith` that wrongly returns normally; `Should.KotlinChecks` states the intended `Fail`.
- Characters are Dafny `char` values with no encoding. Java strings compare UTF-16 code units, and these checks only compare characters for equality.
