# scratch: the document core, modelled in Dafny

scratch is a browser scratchpad. It keeps a list of rich-text blocks (notes) and stores the whole document in the URL fragment. This project models the state core of `src/App.tsx`:

- the document: `blocks` by key, plus the display order `blockOrder`;
- the key allocator `makeUniqueKey`;
- the immer producers that create, update and delete blocks;
- the check that a block for the current day exists;
- the fallback structure of `deserialize`;
- the wrap-around arithmetic of focus navigation.

Modules:

- `Wrappers`: `Option`. It stands for an `undefined` argument and for a library stage that throws.
- `KeyAllocator`: the regular expression `^(.+)\s(\d+)$` written out with JavaScript's `\s`, `\d` and `.`; the decimal rendering of the probe counter; `UniqueKey`, the function that says which key `makeUniqueKey` returns; and `MakeUniqueKey`, the `for (;;)` loop itself, proved equal to `UniqueKey`.
- `Document`: `Block` and `State`, and the invariant `WellFormed`. The invariant says `blockOrder` is duplicate-free, lists exactly the keys of `blocks`, and every block sits under its own key. This module also holds one pure transition per producer (the value `produce(state, producer)` yields) and the lemmas about them.
- `Codec`: `serialize` and `deserialize` over a `Pipeline` of abstract stage functions (JSON, zlib, base64).
- `Focus`: JavaScript's truncating `%`, and next/previous focus.
- `AppComponent`: class `Draft` is the immer draft. The producers change its `blocks` and `blockOrder` fields in place. Class `App` holds the component's `state` and `focusIdx`. Its handlers run a producer on a fresh draft and store the result.

The clock (`new Date()`), the formatted date (`moment().format(...)`) and the empty editor content (`convertToRaw(EditorState.createEmpty()...)`) are parameters. The block content is the type parameter `C`.

Two behaviours of the code worth noting:

- Probing always restarts at 1 against the stripped stem. So `"Task 3"` against `["Task 3"]` gives `"Task 1"` (`KeyAllocator.Examples`).
- Deleting a key that is not present does not leave the document unchanged: it drops the last key of the order (see Findings).

## Model

| member | source | states |
|---|---|---|
| `KeyAllocator.IsLineTerminator` | src/App.tsx:63 | the four characters `.` does not match (no `s` flag); digits and the space are not among them, so `.` matches those |
| `KeyAllocator.IsSpace` | src/App.tsx:63 | `\s` takes in every line terminator and no digit |
| `KeyAllocator.SuffixMatchAt` | src/App.tsx:63 | the regular expression (with `.` as not `IsLineTerminator`, `\s` as `IsSpace` and `\d` as `IsDigit`, the ASCII digits) matches with its `\s` at index i only when i is just before the trailing run of digits, so at most one split fits |
| `KeyAllocator.DigitRunStart` | src/App.tsx:63 | the maximal run of trailing digits (`\d+` at `$`) starts at the returned index |
| `KeyAllocator.SuffixMatch` | src/App.tsx:63-64 | `re.exec` matches exactly when a split exists (non-line-terminators, one `\s`, one or more digits), and then at the returned index; otherwise no split exists |
| `KeyAllocator.Stem` | src/App.tsx:63-67 | `stemmedNewName` is group 1 of the match whenever the expression matches, and the whole name otherwise |
| `KeyAllocator.DigitChar` | src/App.tsx:75 | each digit 0 to 9 renders as a `\d` character that reads back as the same digit |
| `KeyAllocator.NatToString` | src/App.tsx:75 | `${nameIndex}` is a non-empty string of decimal digits without a leading zero |
| `KeyAllocator.ParseRendered` | src/App.tsx:75 | reading the rendering back gives the counter, so distinct counters print differently |
| `KeyAllocator.Probe` | src/App.tsx:75 | the probe is the stem, one space, then the counter's digits; for a non-empty stem without line terminators it matches the regular expression with the stem as group 1 |
| `KeyAllocator.ProbeInjective` | src/App.tsx:75 | two probes `stem n` of one stem are equal only for equal counters |
| `KeyAllocator.ProbesBounded` | src/App.tsx:69-76 | if probes 1..n are all taken, n is at most the number of existing names: the loop terminates |
| `KeyAllocator.FirstFreeIndex` | src/App.tsx:69-76 | the first free counter from n on: that probe is free and every smaller one is taken |
| `KeyAllocator.UniqueKey` | src/App.tsx:60-77 | the key is not an existing name; it is the name itself, unstripped, when that is free; otherwise it is `stem n` for some n >= 1 with every `stem m` for 1 <= m < n taken |
| `KeyAllocator.StemOfProbe` | src/App.tsx:63-75 | stemming a probe `stem n` gives `stem` back, when the stem is non-empty and has no line terminator |
| `KeyAllocator.ExamplesOfCollision` | src/App.tsx:69-76 | "Task" against ["Task"] gives "Task 1"; against ["Task", "Task 1"] it gives "Task 2" |
| `KeyAllocator.ExampleOfRestart` | src/App.tsx:63-76 | "Task 3" against ["Task 3"] gives "Task 1": the stem is "Task" and probing starts at 1 |
| `KeyAllocator.Examples` | src/App.tsx:60-77 | "Task" against ["Task"] gives "Task 1"; against ["Task", "Task 1"] it gives "Task 2"; "Task 3" against [] gives "Task 3"; "Task 3" against ["Task 3"] gives "Task 1" |
| `KeyAllocator.MakeUniqueKey` | src/App.tsx:60-77 | the loop returns exactly `UniqueKey(newName, existingNames)`, a name not among `existingNames` |
| `Document.InitialState` | src/App.tsx:40-43 | `initialState` has no blocks and an empty order, and satisfies the invariant |
| `Document.NewBlock` | src/App.tsx:32-38 | the block has the given key and title, creator "me", the given creation time and the empty content |
| `Document.IndexOf` | src/App.tsx:121 | `indexOf` gives -1 exactly when the key is absent, and otherwise the first index holding it |
| `Document.SpliceOne` | src/App.tsx:121 | `splice(start, 1)` gives: start in range, that element removed; start negative, counted from the end and clamped to 0; start past the end, nothing removed |
| `Document.SpliceIndexOf` | src/App.tsx:121 | on a duplicate-free order holding the key, the splice at `indexOf` removes exactly that key and keeps the other keys in order |
| `Document.Created` | src/App.tsx:109-114 | the new key is at index 0 and the old order follows unchanged; the new key was not in the order; the new block has that key, the requested title, creator "me", the given time and the empty content; other blocks are unchanged; the invariant is preserved and one block is added |
| `Document.CreatedKey` | src/App.tsx:111 | the allocated key is the title itself when free, and otherwise the first free probe of the title's stem |
| `Document.Updated` | src/App.tsx:90-98 | only the defined arguments replace `contentState` or `title` of the block under the key; key, creator and createdAt stay; the order, the key set and every other block are unchanged; with no argument defined nothing changes; the invariant is preserved |
| `Document.ContentUpdated` | src/App.tsx:101-103 | only the content of that block changes |
| `Document.TitleUpdated` | src/App.tsx:105-107 | only the title of that block changes |
| `Document.Deleted` | src/App.tsx:118-122 | the key leaves `blocks`; on a duplicate-free order holding the key, exactly its occurrence is removed; when the key is absent, the last key of the order is dropped |
| `Document.DeletePresent` | src/App.tsx:118-122 | deleting a present key preserves the invariant, shortens the order by one and keeps the other keys in their order |
| `Document.DeleteAbsentBreaksInvariant` | src/App.tsx:120-121 | deleting an absent key from a non-empty well-formed document keeps every block but breaks the invariant |
| `Document.DeleteAbsentExample` | src/App.tsx:120-121 | deleting "b" from the document holding only "a" leaves block "a" stored and the order empty |
| `Document.DeletedGuarded` | src/App.tsx:118-122 | deletion that splices only a present key: it preserves the invariant for every key, and an absent key changes nothing |
| `Document.HasBlock` | src/App.tsx:125 | `indexOf(key) >= 0` holds exactly when the key is in the order |
| `Document.CheckedToday` | src/App.tsx:127-132 | with no block for today, exactly one block is added, at the front, keyed and titled with today's string; with one, nothing changes; afterwards today is present; the invariant is preserved |
| `Document.CheckTodayIdempotent` | src/App.tsx:127-132 | a second check on the same day is a no-op, whatever the clock reads |
| `Codec.Serialize` | src/App.tsx:45 | if each library stage undoes its partner, deserializing the serialized document gives it back |
| `Codec.Decode` | src/App.tsx:48-53 | the `try` body succeeds exactly when neither inflating nor parsing throws, and then gives what parsing gives |
| `Codec.Deserialize` | src/App.tsx:47-58 | a successful decode gives the decoded document; any throw gives exactly `initialState`; nothing in between |
| `Codec.DeserializeFallback` | src/App.tsx:54-57 | a throwing inflate or parse gives the empty document, which satisfies the invariant |
| `Focus.JsRemainder` | src/App.tsx:152-154 | JavaScript `%`: a remainder that differs from the dividend by a multiple of the divisor, in [0, abs(divisor)) for a non-negative dividend and in (-abs(divisor), 0] for a negative one |
| `Focus.FocusNext` | src/App.tsx:152 | for 0 <= idx < len, the result lies in [0, len): the next index, or 0 after the last |
| `Focus.FocusPrevious` | src/App.tsx:153-154 | for 0 <= idx < len, the result lies in [0, len): the previous index, or the last one before 0 |
| `Focus.NextPreviousInverse` | src/App.tsx:152-154 | next and previous undo each other |
| `AppComponent.Draft.constructor` | src/App.tsx:85-88 | a draft starts as a copy of the current document |
| `AppComponent.Draft.CreateNewBlock` | src/App.tsx:110-114 | the producer allocates with the loop, assigns `blocks[key]` and prepends the key; the result is `Created` of the old draft and it preserves the invariant |
| `AppComponent.Draft.UpdateBlock` | src/App.tsx:91-98 | the two conditional field assignments give `Updated` of the old draft and preserve the invariant |
| `AppComponent.Draft.DeleteBlock` | src/App.tsx:119-122 | `delete` followed by `splice(indexOf(key), 1)` gives `Deleted` of the old draft; a present key keeps the invariant and the order of the others |
| `AppComponent.App.constructor` | src/App.tsx:79-83 | the state starts as the document deserialized from the fragment, and the focus index starts at 0 |
| `AppComponent.App.OnUpdateBlock` | src/App.tsx:90-99 | the new state is `Updated` of the old one; the invariant is kept; the focus is unchanged |
| `AppComponent.App.OnUpdateBlockContent` | src/App.tsx:101-103 | the new state is the old one with that block's content replaced |
| `AppComponent.App.OnUpdateBlockTitle` | src/App.tsx:105-107 | the new state is the old one with that block's title replaced |
| `AppComponent.App.OnCreateNewBlock` | src/App.tsx:109-116 | the new state is `Created` of the old one; the invariant is kept; the focus moves to block 0 |
| `AppComponent.App.OnDeleteBlock` | src/App.tsx:118-123 | the new state is `Deleted` of the old one, the absent-key behaviour included; deleting a present key keeps the invariant; the focus is unchanged |
| `AppComponent.App.HasBlock` | src/App.tsx:125 | true exactly when the key is in the current order |
| `AppComponent.App.CheckTodayBlock` | src/App.tsx:127-132 | the new state is `CheckedToday` of the old one; afterwards today's key is present; when it already was, nothing changes; when it was not, the focus moves to block 0 |
| `AppComponent.App.OnFocusNext` | src/App.tsx:152 | the focus becomes `FocusNext` of the index over the current number of blocks; the document is unchanged |
| `AppComponent.App.OnFocusPrevious` | src/App.tsx:153-154 | the focus becomes `FocusPrevious` of the index over the current number of blocks; the document is unchanged |
| `AppComponent.CheckTodayTwice` | src/App.tsx:134-136 | the interval and the state effect each run the day check; two runs leave the state and the focus of one run |

## Left out

- Compression and encoding: `pako.deflate` and `pako.inflate` (zlib of RFC 1950 around DEFLATE of RFC 1951), base64 through `Buffer` (the standard alphabet of section 4 of RFC 4648), and `JSON.stringify`/`JSON.parse`. These are library calls. They are the abstract functions of `Codec.Pipeline`, and their round trips are the hypotheses of the round trip in `Codec.Serialize`.
- The library's handling of the `#` that `window.location.hash` starts with: it belongs to the abstract `fromBase64` stage.
- The `as State` cast: it checks nothing. The model's `unpack` returns a `State`, so it cannot show a parsed value of another shape (for example `null`). A decoded document need not satisfy the invariant.
- Codec.Deserialize: its contract does not promise a well-formed document after a successful decode, because the source does not validate what it parses.
- Persistence and timers: `debounce`, `useInterval`, `useEffect`, `window.history.pushState`, the `location.hash` assignment and the page title. These are timers and browser I/O. They are also what the debounce collapsing would need.
- React scheduling: the model applies each update to the current state. Updates queued through `setState` are not modelled, nor is a `hasBlock` that reads a state from a render not yet re-run.
- Document.Updated, Document.ContentUpdated, Document.TitleUpdated, AppComponent.Draft.UpdateBlock, AppComponent.App.OnUpdateBlock, AppComponent.App.OnUpdateBlockContent and AppComponent.App.OnUpdateBlockTitle: they require the key to be in `blocks` whenever a field is written. The source writes `draft.blocks[block.key].contentState` or `.title`, which throws a TypeError for a missing key (src/App.tsx:93,96). The model does not capture that throw.
- `convertToRaw` of the new content in `onUpdateBlock`: it is a draft-js call. The handlers take the raw content directly.
- JavaScript object-key semantics of `Record<string, Block>`: keys such as `__proto__` behave specially on plain objects. Here `blocks` is a map over all strings.
- Character encoding: JavaScript strings are UTF-16 code units, and Dafny's `char` is a Unicode scalar value. For this regular expression (no `u` flag, no astral white space or digits) the match is the same.
- `onFocusThis` and rendering (src/App.tsx:151, 160-178): UI only.
- src/BlockEditor.tsx: the draft-js editor and key bindings. Only its `Block` record (src/BlockEditor.tsx:27-33) is modelled, as `Document.Block`.
- src/Editable.tsx: UI only.
- src/randomEmoji.ts: random, floating-point title generation. The title is a parameter of `OnCreateNewBlock`.

## Findings

| source | as written | input that shows it | evidently intended | confidence | as-written member | corrected member |
|---|---|---|---|---|---|---|
| src/App.tsx:121 | `blockOrder.splice(blockOrder.indexOf(key), 1)` runs even when `indexOf` gives -1, and `splice(-1, 1)` removes the last key while `blocks` keeps that block | document with only block "a" (order ["a"]); delete key "b": the order becomes empty and block "a" stays in `blocks` | deleting an absent key changes nothing, so the order stays a permutation of the keys | not executed; reachable because `deserialize` casts the decoded fragment `as State` without checking it (src/App.tsx:53): a fragment `blocks: {"x": {key: "y", ...}}, blockOrder: ["x"]` lets the editor's delete pass `block.key` "y" (src/BlockEditor.tsx:84,138), so `splice(-1, 1)` removes "x" from the order while block "x" stays in `blocks` (src/App.tsx:120-121) | `Document.DeleteAbsentBreaksInvariant` | `Document.DeletedGuarded` |

`AppComponent.App.OnDeleteBlock` follows the code as written. `Document.DeletedGuarded` is the intended deletion. It is proved to keep the invariant for every key.
