# Source positions and the lookahead scanner of the vn-engine script front end

This project models the source-position machinery of the engine's script
front end (`src/script/span.rs`) in Dafny and proves what it promises.

- `ScriptSpan` (`span.dfy`) models the value types. A `Pos` has a row, a
  column, a character index and a file `Symbol`. A `Span` is a start/end pair.
  `PartialEq for Pos` compares the file, row and column and ignores the index.
  `PartialOrd for Pos` gives no order across files; within one file it orders
  by row and then by column. The module also holds the `Debug` renderings
  `row:col` and `(start - end)`. It defines the rule by which the scanner
  moves its cursor over one character (`Advance`) and that rule folded over a
  whole string (`PosAfter`). Lemmas give `PosAfter` in closed form: the index
  counts characters, the row counts newlines, and the column counts the
  characters after the last newline.
- `ScriptScanner` (`speekable.dfy`) models `Speekable`, a scanner with one
  character of lookahead, as a class. Its fields are `peeked`, the cursor
  `pos`, and the wrapped iterator. The iterator is the sequence `input` of
  everything it yields, plus the count `pulled` of characters taken from it.
  The class invariant `Valid` ties the cursor to `PosAfter` of the characters
  pulled so far. It also requires the buffered character to be the last one
  pulled, tagged with the position where it occurs, and keeps rows and
  columns 1-based. The ghost views `Delivered` and `Upcoming` give what
  `next` has already handed out and what it will hand out next. Each
  method's contract states its effect on them.
- `ScriptParse` (`parse.dfy`) mirrors the two operator enumerations of
  `src/script/parse.rs`. They are plain datatypes with no behaviour.

Rust's `usize` becomes `nat`. `Option` and `Ordering` are small datatypes.
`Pos::new` and `Span::new_simple` are the datatype constructors `Pos(..)` and
`Span(..)`. The interned `Symbol` is a handle that can only be compared.

## Model

| member | source | states |
|---|---|---|
| `ScriptSpan.Cmp` | src/script/span.rs:41-45 | `usize::cmp` answers Less, Equal or Greater exactly when the first number is smaller, equal or larger |
| `ScriptSpan.Eq` | src/script/span.rs:30-34 | `eq` holds exactly when the two positions agree on everything but the index; further laws are in the lemmas below |
| `ScriptSpan.PartialCmp` | src/script/span.rs:36-46 | `partial_cmp` answers exactly when both positions are in the same file, and answers `Equal` exactly when `eq` holds; `PartialCmpLexicographic` and `PartialCmpDual` give the rest |
| `ScriptSpan.Lt` | src/script/span.rs:36-46 | the derived `<` holds exactly for same-file positions with a smaller row, or the same row and a smaller column |
| `ScriptSpan.Le` | src/script/span.rs:36-46 | the derived `<=` holds exactly for same-file positions with a smaller row, or the same row and a column no larger |
| `ScriptSpan.EqIgnoresIdx` | src/script/span.rs:30-34 | two positions are equal exactly when they agree on everything but the index; changing only the index keeps a position equal to itself |
| `ScriptSpan.EqIsEquivalence` | src/script/span.rs:30-34 | position equality is reflexive, symmetric and transitive |
| `ScriptSpan.DifferentFilesIncomparable` | src/script/span.rs:30-40 | positions in different files compare as `None` and are neither equal, `<` nor `<=` |
| `ScriptSpan.ComparableIffSameFile` | src/script/span.rs:37-45 | `partial_cmp` gives an answer exactly when both positions are in the same file |
| `ScriptSpan.PartialCmpEqualIffEq` | src/script/span.rs:30-46 | `partial_cmp` gives `Some(Equal)` exactly when `eq` holds |
| `ScriptSpan.PartialCmpLexicographic` | src/script/span.rs:41-45 | within one file, `Less` and `Greater` are the lexicographic order on (row, col), in both directions |
| `ScriptSpan.PartialCmpDual` | src/script/span.rs:36-46 | comparing in the other order swaps Less and Greater and keeps Equal and None |
| `ScriptSpan.OrderLaws` | src/script/span.rs:36-46 | `<=` is antisymmetric up to `eq`; `<` is asymmetric and excludes `eq`; `<` and `<=` are transitive |
| `ScriptSpan.PartialCmpRespectsEq` | src/script/span.rs:30-46 | replacing a position by an equal one does not change any comparison |
| `ScriptSpan.Advance` | src/script/span.rs:97-105 | a newline moves to column 1 of the next row; any other character moves one column right; the index grows by one and the file stays; the result is strictly later than the start |
| `ScriptSpan.PosAfterClosedForm` | src/script/span.rs:93-108 | after a string is consumed: the index grew by its length; the row grew by its newline count; the column is the start column plus its length if it has no newline, else one more than the number of characters after its last newline |
| `ScriptSpan.PosAfterOneBased` | src/script/span.rs:89-105 | consuming any string from a position with row and column at least 1 keeps both at least 1 |
| `ScriptSpan.PosAfterConcat` | src/script/span.rs:93-108 | consuming `s` and then `t` reaches the same position as consuming `s + t` |
| `ScriptSpan.PosAfterAdvances` | src/script/span.rs:97-107 | consuming any non-empty string moves the cursor strictly forward in the order |
| `ScriptSpan.PrefixPositionsIncrease` | src/script/span.rs:97-107 | the positions at which the characters of one input occur strictly increase, so no two of them are equal |
| `ScriptSpan.Decimal` | src/script/span.rs:24-28 | the numeral printed for a `usize` is non-empty and consists of decimal digits |
| `ScriptSpan.DecimalRoundTrip` | src/script/span.rs:24-28 | reading back the printed numeral gives the number |
| `ScriptSpan.PosDebug` | src/script/span.rs:24-28 | the `row:col` rendering has at least three characters, holds a `:` and holds only digits and `:`; `PosDebugShowsRowCol` shows it determines exactly the row and column |
| `ScriptSpan.SpanDebug` | src/script/span.rs:61-65 | the `(start - end)` rendering is parenthesised and has at least eleven characters; `SpanDebugShowsEnds` shows it determines exactly the rows and columns of both ends |
| `ScriptSpan.PosDebugHasNoSpace` | src/script/span.rs:24-28 | the `row:col` rendering holds no space |
| `ScriptSpan.PosDebugShowsRowCol` | src/script/span.rs:24-28 | two positions render alike exactly when their rows and columns agree; equal positions render alike |
| `ScriptSpan.SpanDebugShowsEnds` | src/script/span.rs:61-65 | two spans render alike exactly when the rows and columns of both ends agree |
| `ScriptScanner.StartPos` | src/script/span.rs:89 | the start position is row 1, column 1, index 0 in the given file |
| `ScriptScanner.Speekable.constructor` | src/script/span.rs:85-91 | a fresh scanner has nothing buffered, has pulled nothing, and its cursor is at the start position of its file |
| `ScriptScanner.Speekable.PullInner` | src/script/span.rs:95 | the wrapped iterator yields its next character and moves on, or yields `None` and stays put at the end |
| `ScriptScanner.Speekable.Tick` | src/script/span.rs:93-110 | a full buffer, or an exhausted input, leaves everything unchanged; otherwise the next character is pulled and buffered with the old cursor, and the cursor advances past it; afterwards the buffer is empty exactly at end of input |
| `ScriptScanner.Speekable.Speek` | src/script/span.rs:112-115 | returns the character `next` will hand out and the position where it occurs; hands nothing out; the cursor is then one step past that character |
| `ScriptScanner.Speekable.Peek` | src/script/span.rs:117-120 | returns the character `next` will hand out, or `None` at end of input; hands nothing out; afterwards that character is buffered with its position and the cursor is one step past it; pulls nothing when a character is already buffered |
| `ScriptScanner.Speekable.SNext` | src/script/span.rs:122-125 | returns the upcoming character and its position and hands it out; the buffer is left empty; at end of input returns `None` and the cursor is unchanged |
| `ScriptScanner.Speekable.LastPos` | src/script/span.rs:127-129 | the cursor is the position after the pulled characters; its index is the number of characters pulled |
| `ScriptScanner.Speekable.Next` | src/script/span.rs:135-138 | returns the upcoming character and hands it out; the buffer is left empty; the cursor is one step past that character; at end of input returns `None` and the cursor is unchanged |
| `ScriptScanner.PeekThenNext` | src/script/span.rs:112-138 | peeking twice returns the same character, and `next` then returns that character; `speek` followed by `snext` agree the same way |
| `ScriptScanner.SNextTwice` | src/script/span.rs:122-125 | two successive `snext` calls report strictly increasing positions; the second position is the first advanced over the first character |

## Left out

- `Speekerator` and its blanket implementation for every `char` iterator
  (src/script/span.rs:67-75) only forward to `Speekable::new`, which is the
  class constructor. Traits are not part of this model.
- The wrapped iterator is a fixed sequence of characters. An iterator that
  yields more characters after it has returned `None` is not modelled.
- `ScriptSpan.Advance`: `row + 1`, `col + 1` and `idx + 1` are unbounded here.
  In Rust they would overflow `usize` after 2^64 characters on a 64-bit
  target, or 2^32 on a 32-bit one. Such an overflow panics in a debug build
  and wraps in a release build. Neither outcome is modelled.
- `speek` and `peek` return references into the buffer. The model returns
  copies of the values.
- The derived `Default` for `Pos` depends on `Symbol`'s default, which is not
  part of this model.
- The `Symbol` interner (`super::symbol`) is not part of this model. A
  `Symbol` is a handle compared by equality.
- `Expr` in src/script/parse.rs has no variants, so it has no Dafny
  counterpart. A Dafny datatype needs at least one constructor.
- The repository has no tokenizer, precedence table or expression parser; the
  operator enumerations are only declared. The model follows the code, so
  precedence, associativity and parse errors are not modelled.
- The window and event loop (src/main.rs) are left out as I/O and
  foreign-library plumbing. So are GPU rendering and colour conversion
  (src/graphics.rs), the frame buffer, image and layer types
  (src/graphics/), and the event type (src/event.rs).
