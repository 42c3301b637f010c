# icon-font-to-png: the icon table and the export layout, in Dafny

`icon-font-to-png` turns the glyphs of a web icon font into PNG images.
This project models the two pieces of it that are pure logic and proves
what they promise.

1. **`IconFont.load_css`** (`icon_font_to_png/icon_font.py:26-75`). It
   reads the icon stylesheet and builds the icon table:
   - it picks the rules whose selector matches `\.(.*):before,?`;
   - it folds the running common prefix over their `selector[1:]`;
   - it decodes every `content` value such as `"\f101"` into a code point;
   - unless the prefix is kept, it re-keys every entry under
     `name[len(prefix):]`;
   - it returns the table sorted by key, together with the prefix.
2. **The layout arithmetic of the two export paths** (`:174-204` and
   `:249-270`):
   - the size the icon is rendered at (`max(150, size)`);
   - the Python 3 `int((size - extent) / 2)` borders;
   - where the cropped piece is pasted on the output canvas.

The stylesheet comes in already parsed, as a sequence of `Rule(selector,
declarations)`, with the selector and each declaration's value serialised
back to text. Glyph rendering is not modelled: its bounding box comes in as
a parameter.

Modules, one per file:

- `results.dfy`: `Option` and `Result`.
- `strings.dfy`: newline-free stretches of a string (what a regex's `.`
  runs over), `os.path.commonprefix` of two strings, and Python's string
  `<`.
- `hex.dfy`: `int(x, 16)` on plain hexadecimal digits, and its inverse.
- `selectors.dfy`: the selector regex, as `re.match` and `re.finditer` use it.
- `content.dfy`: the quote-stripping regex, and the decoding of a `content`
  value.
- `table.dfy`: the dict as an insertion-ordered list of entries with
  distinct keys.
- `sorting.dfy`: sorting the dict by key.
- `load_css.dfy`: the rule loop, prefix stripping, and `Load` itself.
- `load_css_properties.dfy`: what the loaded table and prefix satisfy, for
  every stylesheet.
- `borders.dfy`: render size, borders and paste layout.
- `scenario.dfy`: the two-icon stylesheet worked end to end.

Consequences of the code worth knowing, each proved in the model:

- **Several names per selector.** The `.` of the selector regex does not
  match a newline, and `finditer` resumes after each match. So each line of a
  selector yields at most one name: never more names than newlines plus one
  (`Selectors.NamesAtMostOnePerLine`). The alias group `.a:before,\n.b:before` yields two names
  (`Selectors.AliasGroupNames`). A matching selector without a newline yields
  exactly one (`Selectors.SingleLineSelectorHasOneName`).
- **The prefix does not depend on rule order.** The running
  `os.path.commonprefix` always ends at the longest common prefix of all the
  icon selectors' `selector[1:]` (`LoadCssProperties.PrefixIsCommon`,
  `PrefixIsLongest`). So the same icon selectors, in any order, give the same
  prefix (`LoadCssProperties.PrefixOrderIndependent`).
- **The prefix includes `:before`.** It is computed from `selector[1:]`,
  which still carries `:before`, not from the extracted names. With one icon
  rule the prefix is that whole `selector[1:]`, `:before` included
  (`LoadCssProperties.SingleIconPrefix`). The one entry then ends up under
  the key `''` (`LoadCssProperties.SingleIconEmptyKey`).
- **Borders truncate toward zero.** They are `int(n / 2)` in Python 3, which
  rounds toward zero, not floor division (`Borders.TruncHalfNotFloor`). The
  two differ only when the glyph is wider than the canvas.
- **As written, no export gets past the borders.** Read with `:95` inside
  the docstring (see "Left out"), `scale_font` returns `getbbox` of an image
  it never draws on (`:101-127`). So `bbox` is always `None`. The wrapper
  export raises at `bbox[2]` (`:265`); the no-wrapper export first raises
  `NameError` at `:177`, and at `bbox[2]` (`:195`) once that is fixed
  (`Borders.AsWrittenExportsFail`). The layouts below describe what the
  arithmetic does with a real bounding box.

## Model

| member | source | states |
|---|---|---|
| Selectors.MatchAt | icon_font_to_png/icon_font.py:38-45 | `is_icon.match` at an index succeeds iff there is a dot there and a `:before` later on the same line. The name is the text up to the LAST such `:before`, none later on the line, and the match swallows one directly following comma. |
| Selectors.IconNames | icon_font_to_png/icon_font.py:54-55 | An icon selector yields at least one name. The first is the name `match` found at the start, and every name is shorter than the selector. |
| Selectors.SingleLineSelectorHasOneName | icon_font_to_png/icon_font.py:38-55 | A matching selector without a newline yields exactly one name, the one `match` found. |
| Selectors.SimpleSelectorName | icon_font_to_png/icon_font.py:38-55 | `.name:before`, for any single-line name, is an icon selector whose only name is `name`. Later `:before`s inside the name are captured by the greedy `.*`. |
| Selectors.NoMatchFrom | icon_font_to_png/icon_font.py:54 | `finditer` finds nothing where no `:before` follows. |
| Selectors.NamesAtMostOnePerLine | icon_font_to_png/icon_font.py:54-55 | `finditer` over any selector yields at most one name per line: no more names than the selector has newlines, plus one. |
| Selectors.AliasGroupNames | icon_font_to_png/icon_font.py:54-55 | The two-line selector `.a:before,\n.b:before` yields the two names `a` and `b`. |
| Hex.ParseHex | icon_font_to_png/icon_font.py:62 | On strings of ASCII characters without sign, whitespace, `0x` or underscores, `int(x, 16)` succeeds iff `x` is a non-empty run of hex digits, in either case. The value is the positional sum of the digits, each weighted by 16 to the power of its distance from the end, so it is below 16 to the power of the length. |
| Hex.HexValueSnoc | icon_font_to_png/icon_font.py:62 | Appending a digit to a digit string multiplies its positional value by 16 and adds the digit. |
| Hex.ParseHexLeadingZero | icon_font_to_png/icon_font.py:62 | A leading zero does not change the value: `int("0f101", 16)` is `int("f101", 16)`. |
| Hex.ParseHexUpperCase | icon_font_to_png/icon_font.py:62 | `int("F101", 16)` is 0xF101, the same as `int("f101", 16)`. |
| Hex.ParseToHex | icon_font_to_png/icon_font.py:62 | Parsing the lower-case hex spelling of any number gives the number back. |
| Content.StripQuotesRemovesQuotes | icon_font_to_png/icon_font.py:59-61 | A value wrapped in single or double quotes, with no newline inside, loses exactly its two quotes. |
| Content.StripQuotesKeepsUnquoted | icon_font_to_png/icon_font.py:60-61 | A value that does not start with a quote is left as it is. |
| Content.DecodeContent | icon_font_to_png/icon_font.py:58-62 | A `content` value decodes iff the text after the quotes and the escape character is plain hex whose value is below 0x110000, which `unichr` demands; the result is that value. |
| Content.DecodeEncodedContent | icon_font_to_png/icon_font.py:58-62 | Every code point, written as quote, backslash, hex digits, quote, decodes back to itself. |
| Content.DecodeRejectsLargeValue | icon_font_to_png/icon_font.py:62 | A value at or above 0x110000 is the `unichr` error, carrying that value. |
| Content.DecodeTypicalContent | icon_font_to_png/icon_font.py:58-62 | `"\f101"` decodes to U+F101. |
| Table.Get | icon_font_to_png/icon_font.py:70 | A lookup finds a key iff some entry has it, and in a dict it yields that entry's value. |
| Table.Put | icon_font_to_png/icon_font.py:62 | `d[k] = v`: `k` then holds `v` and every other key is unchanged. An existing key keeps its place and a new one is appended, so existing names stay where they were. |
| Table.SameEntriesSameLookups | icon_font_to_png/icon_font.py:73 | Two dicts with the same entries, in any order, answer every lookup alike. |
| Strings.CommonPrefix | icon_font_to_png/icon_font.py:51-52 | `os.path.commonprefix` of two strings is a prefix of both, and the two differ (or one ends) right after it. |
| Strings.CommonPrefixIsLongest | icon_font_to_png/icon_font.py:51-52 | Every common prefix of the two strings is a prefix of the computed one. |
| Strings.CommonPrefixOfExtensions | icon_font_to_png/icon_font.py:51-52 | Prepending the same text to both strings prepends it to their common prefix. |
| Strings.LessIffFirstDifference | icon_font_to_png/icon_font.py:73 | Python's `<` on strings holds iff the first is a proper prefix of the second, or the smaller character comes at the first difference. |
| Strings.LessIrreflexive | icon_font_to_png/icon_font.py:73 | No key sorts before itself. |
| Strings.LessTransitive | icon_font_to_png/icon_font.py:73 | The key order is transitive. |
| Strings.LessTotal | icon_font_to_png/icon_font.py:73 | Any two different keys are ordered one way or the other. |
| Strings.LessAsymmetric | icon_font_to_png/icon_font.py:73 | Two keys are never ordered both ways. |
| Sorting.Insert | icon_font_to_png/icon_font.py:73 | Inserting an entry with a new key into an ascending run keeps it strictly ascending and adds exactly that entry. |
| Sorting.SortByKey | icon_font_to_png/icon_font.py:73 | `sorted(icons.items(), key=...)` is strictly ascending by key and a permutation of the dict's entries. |
| Sorting.SortedIsDict | icon_font_to_png/icon_font.py:73 | A strictly ascending sequence has no repeated key. |
| Sorting.SortedUnique | icon_font_to_png/icon_font.py:73 | Two strictly ascending sequences with the same entries are equal, so the sorted table is determined by its entries. |
| Sorting.SortDependsOnlyOnLookups | icon_font_to_png/icon_font.py:73 | Dicts answering every lookup alike sort to the same table, whatever their insertion order. |
| Sorting.SortKeepsSorted | icon_font_to_png/icon_font.py:73 | An already ascending dict comes out unchanged. |
| Sorting.SortKeepsLookups | icon_font_to_png/icon_font.py:73 | Sorting keeps every lookup. |
| Sorting.SortedCount | icon_font_to_png/icon_font.py:73 | Sorting keeps the number of entries. |
| LoadCss.LastContent | icon_font_to_png/icon_font.py:56-62 | A rule has a value to assign iff it has a `content` declaration, and the value is that of the last one. |
| LoadCss.AssignDecls | icon_font_to_png/icon_font.py:56-62 | The declaration loop succeeds iff every `content` value decodes. It then changes only `name`, which ends up holding the last `content` value, or its old value when there is none. |
| LoadCss.AssignNames | icon_font_to_png/icon_font.py:54-62 | The loop over a selector's names succeeds iff there are no names or every `content` value decodes. Each extracted name then holds the last `content` value, and other keys are untouched. |
| LoadCss.StripPrefix | icon_font_to_png/icon_font.py:67-71 | Re-keying never adds entries. |
| LoadCss.Load | icon_font_to_png/icon_font.py:26-75 | `load_css` succeeds iff every icon rule's `content` values decode, and the table it returns is strictly ascending by key. |
| LoadCss.FoldSucceedsIff | icon_font_to_png/icon_font.py:40-62 | The rule loop fails exactly when some icon rule has a `content` value that does not decode; other rules' declarations are never read. |
| LoadCss.StepSucceedsIff | icon_font_to_png/icon_font.py:40-62 | One rule fails the loop iff it is an icon rule with a `content` value that does not decode. |
| LoadCssProperties.FoldIgnoresNonIconRules | icon_font_to_png/icon_font.py:43-45 | The loop over the whole stylesheet equals the loop over its icon rules alone. |
| LoadCssProperties.LoadIgnoresNonIconRules | icon_font_to_png/icon_font.py:43-45 | Loading the stylesheet equals loading its icon rules alone. |
| LoadCssProperties.PrefixAbsentIffNoIconRule | icon_font_to_png/icon_font.py:34-49 | `common_prefix` stays `None` exactly as long as no icon rule has been seen. |
| LoadCssProperties.PrefixIsCommon | icon_font_to_png/icon_font.py:48-52 | The running prefix is a prefix of `selector[1:]` for every icon rule. |
| LoadCssProperties.PrefixIsLongest | icon_font_to_png/icon_font.py:48-52 | Every common prefix of all icon rules' `selector[1:]` is a prefix of the computed one. |
| LoadCssProperties.FoldLookups | icon_font_to_png/icon_font.py:40-62 | After the loop a name is present iff some rule assigns to it, and it holds the value decoded by the last rule that does. |
| LoadCssProperties.FoldKeys | icon_font_to_png/icon_font.py:40-62 | After the loop a name is present iff some icon rule extracts it and has a `content` declaration. |
| LoadCssProperties.FoldValues | icon_font_to_png/icon_font.py:40-62 | After the loop a name holds the value of the last rule that assigns to it: a later rule overwrites an earlier one. |
| LoadCssProperties.StepLookups | icon_font_to_png/icon_font.py:40-62 | One rule changes exactly the names it assigns to, each to its decoded last `content` value. |
| LoadCssProperties.LastContentDecodes | icon_font_to_png/icon_font.py:56-62 | When every `content` value decodes, the surviving last one does. |
| LoadCssProperties.StripKeys | icon_font_to_png/icon_font.py:67-71 | After re-keying, every entry's stripped name is a key, and every key is the stripped name of some entry, carrying that entry's value. |
| LoadCssProperties.LastStrippedToMeans | icon_font_to_png/icon_font.py:67-71 | The reference reading of re-keying finds the last entry, in insertion order, whose stripped name is the key, or finds that there is none. |
| LoadCssProperties.StripPrefixLookup | icon_font_to_png/icon_font.py:67-71 | Re-keying agrees with the reference reading. A key is absent iff no entry strips to it; otherwise it holds the value of the last entry that does. |
| LoadCssProperties.StripLookup | icon_font_to_png/icon_font.py:67-71 | Re-keying one more entry: its stripped key takes its value and every other key answers as before. |
| LoadCssProperties.StripKeepsKey | icon_font_to_png/icon_font.py:67-71 | Every entry's stripped name is a key afterwards. |
| LoadCssProperties.StripOrigin | icon_font_to_png/icon_font.py:67-71 | Every key afterwards is some entry's stripped name and holds that entry's value. |
| LoadCssProperties.StripLastWins | icon_font_to_png/icon_font.py:67-71 | When names collide after stripping, the entry inserted last wins. |
| LoadCssProperties.StripSharedPrefix | icon_font_to_png/icon_font.py:67-71 | When every name starts with the prefix, re-keying keeps every entry, its order and its value, and removes exactly the prefix from each name. |
| LoadCssProperties.StripCollapses | icon_font_to_png/icon_font.py:67-71 | When no name is longer than the prefix, everything collapses to one entry under `''` holding the last entry's value. |
| LoadCssProperties.LoadCommonPrefix | icon_font_to_png/icon_font.py:48-64 | The returned prefix is `''` without icon rules. Otherwise it is a prefix of every icon rule's `selector[1:]`, and the longest one. |
| LoadCssProperties.SingleIconPrefix | icon_font_to_png/icon_font.py:48-64 | With exactly one icon rule, the prefix is that rule's whole `selector[1:]`. |
| LoadCssProperties.PrefixOrderIndependent | icon_font_to_png/icon_font.py:40-52 | Two stylesheets with the same icon selectors, in any order and number, get the same prefix. |
| LoadCssProperties.CommonPrefixBelow | icon_font_to_png/icon_font.py:48-52 | When one stylesheet's icon selectors all occur in another, the other's prefix is a prefix of the first's. |
| LoadCssProperties.IconTransfer | icon_font_to_png/icon_font.py:44 | When one stylesheet's icon selectors all occur in another, the other has an icon rule whenever the first does. |
| LoadCssProperties.LoadKeepsNames | icon_font_to_png/icon_font.py:54-75 | Without stripping, a name is in the result iff some rule assigns to it, and it holds the value of its last assignment. |
| LoadCssProperties.EntryHasLastWriter | icon_font_to_png/icon_font.py:54-62 | Every entry of the loaded dict comes from the last rule that assigns to its name. |
| LoadCssProperties.LoadStripsPrefix | icon_font_to_png/icon_font.py:64-75 | With stripping, a key is in the result iff it is the stripped form of some assigned name. Every entry holds the value of a last assignment to such a name. There are never more entries than without stripping. |
| LoadCssProperties.StrippedKeys | icon_font_to_png/icon_font.py:67-73 | With stripping, a key is present iff it is the stripped form of some assigned name. |
| LoadCssProperties.StrippedValue | icon_font_to_png/icon_font.py:67-73 | With stripping, every entry holds the value of the last assignment to some name that strips to its key. |
| LoadCssProperties.StrippedCount | icon_font_to_png/icon_font.py:67-71 | Stripping never yields more entries than keeping the prefix. |
| LoadCssProperties.SingleIconEmptyKey | icon_font_to_png/icon_font.py:48-71 | One icon rule with stripping gives a one-entry table under the key `''`, holding the rule's decoded value. |
| Scenario.FoldExample | icon_font_to_png/icon_font.py:40-62 | The rule loop over `.icon-home:before` (`\f101`), `.icon-user:before` (`\f102`) and a plain `a` rule gives both icons, in that order, with the prefix `icon-`. |
| Scenario.StripExample | icon_font_to_png/icon_font.py:67-71 | Stripping `icon-` re-keys those two icons as `home` and `user`. |
| Scenario.LoadExample | icon_font_to_png/icon_font.py:26-75 | Loading that stylesheet gives `[home: U+F101, user: U+F102]` with the prefix `icon-`. |
| Borders.RenderSize | icon_font_to_png/icon_font.py:174-175 | The icon is rendered at a side of at least 150 and at least the requested size, and the side is one of the two. |
| Borders.ResizeTarget | icon_font_to_png/icon_font.py:202-204 | The canvas is scaled down iff the requested size is below 150, and then to exactly the requested size. |
| Borders.TruncHalf | icon_font_to_png/icon_font.py:195-196 | `int(n / 2)` is half of `n` rounded toward zero. |
| Borders.TruncHalfIsOdd | icon_font_to_png/icon_font.py:195-196 | Halving is symmetric about zero. |
| Borders.TruncHalfNotFloor | icon_font_to_png/icon_font.py:195-196 | Halving -3 gives -1, where floor division gives -2. |
| Borders.Border | icon_font_to_png/icon_font.py:195-196 | For a piece no wider than the canvas, the border is non-negative and leaves the piece centred to within one pixel. For a wider piece it is not positive. |
| Borders.BorderAntitone | icon_font_to_png/icon_font.py:195-196 | A wider piece never gets a wider border. |
| Borders.Offsets | icon_font_to_png/icon_font.py:192-196 | The borders exist iff there is a bounding box; a blank image's `None` box makes `bbox[2]` fail. For a box inside the canvas they centre the box. |
| Borders.NoWrapperLayout | icon_font_to_png/icon_font.py:174-200 | The export without a wrapper pastes the glyph's box on a canvas of side `max(150, size)`. It fails iff the image is blank, and a box inside the canvas always fits and is centred. |
| Borders.WrapperLayout | icon_font_to_png/icon_font.py:249-270 | As written, the wrapper export uses a canvas of side `size`. It pastes the wrapper's box, or the whole image when the wrapper is blank, at the borders of the inner glyph's box, and fails iff the inner glyph is blank. For an inner box inside the canvas, the pasted wrapper is centred only if the two boxes' extents differ by at most one pixel, and it is centred and fits whenever they are equal. |
| Borders.WrapperOffCentre | icon_font_to_png/icon_font.py:262-266 | For any two boxes inside the canvas, a wrapper two or more pixels wider than the inner glyph is pasted off centre. |
| Borders.AsWrittenExportsFail | icon_font_to_png/icon_font.py:101-127 | `scale_font` returns the box of an image it never draws on, which is `None`. Given that box, both exports fail at `bbox[2]` (`:195`, `:265`). |
| Borders.WrapperOverruns | icon_font_to_png/icon_font.py:262-270 | A full-canvas wrapper around a small inner glyph is pasted 40 pixels in and overruns the canvas. |
| Borders.CentredWrapperLayout | icon_font_to_png/icon_font.py:262-270 | With the borders taken from the wrapper's own box, the wrapper export fails iff the wrapper is blank, and a wrapper box inside the canvas always fits and is centred. |
| Borders.CentredWrapperMatchesNoWrapper | icon_font_to_png/icon_font.py:192-200 | At a size of 150 or more, the corrected wrapper layout is the no-wrapper layout of the wrapper's box. |

## Left out

- Stylesheet parsing (`tinycss`, `:35-36`) is not modelled. Rules come in
  already parsed, with the selector and values serialised by `as_css()`, and
  declaration names are assumed to be already lower-cased by the parser.
- Reading the CSS file, creating the export directory and saving the PNG
  (`:36`, `:206-215`, `:276-285`) are file I/O and are not modelled.
- Measuring text, drawing masks, cropping and resampling (`:101-105`,
  `:180-193`, `:248-263`) are image work done by PIL and are not modelled.
  The only box the code as written can produce is `None`
  (`Borders.AsWrittenExportsFail`). The layout members take the box as a
  parameter, to state what the arithmetic would do with a glyph's real box.
- `scale_font` (`:77-128`) is not modelled. It iterates on floating-point
  font sizes measured by the font renderer, so it is both floating point and
  a foreign call.
- The `float(size - width) / 2` text positions (`:185`, `:253-255`) are
  floating point and only feed the renderer.
- Hex.ParseHex: `int(x, 16)` also accepts surrounding whitespace, a leading
  `+` or `-` sign, a `0x` prefix, underscores between digits, and non-ASCII
  decimal digits such as `'٣'`. So `"\+f101"` decodes to U+F101 in the
  source. The model accepts plain ASCII hex digits only and reports every
  other string as a decoding failure.
- `export_icon` (`:148-155`) is not modelled. It calls
  `export_icon_with_wrapper` in both branches. The first branch
  (`wrapper_icon == ''`) omits the required `wrapper_icon` argument and
  raises `TypeError`. The second passes it on and so reaches the wrapper
  layout (`:249-270`), which `Borders.WrapperLayout` models.
- Line `:95` (`Helper function to scale a font`) stands after the closing
  `"""` of `scale_font`'s docstring. It is not valid Python, so as written
  the whole file fails to compile with `SyntaxError`, and neither `load_css`
  nor any export runs. The model reads the file as if that line were part
  of the docstring. The runtime errors stated here (`:177`, `:195`, `:265`,
  `:273`) are the ones the code raises once that line is fixed, each
  reached only when the earlier ones on its path are fixed too.
- `export_icon_no_wrapper` passes `ttf`, a name it never defines, to
  `scale_font` (`:177`), which raises `NameError` before any layout. The
  model does not state this error.
- `export_icon_with_wrapper` reads `org_size`, a name it never defines
  (`:273`), after pasting. `Borders.WrapperLayout` models the layout it has
  computed by that point and not the `NameError` that follows.
- Borders.NoWrapperLayout: the bounding box comes in as a parameter. Facts
  that depend on PIL's `getbbox` always lying inside the canvas appear as the
  hypothesis `InCanvas`.
- LoadCss.Load: stylesheets are modelled as plain rulesets only. tinycss
  also puts at-rules (`@media`, `@import`, `@page`) into `stylesheet.rules`.
  These have no selector string, so `rule.selector.as_css()` (`:41`) raises
  on them. The `Rule` type cannot express them, so "succeeds iff every icon
  rule's `content` values decode" holds for stylesheets of plain rulesets.
- The model assumes Python 3.7 or later. The file also targets Python 2
  (`unicode_literals` and `six.unichr`, `:1-2`), where three things differ:
  dict iteration order, `/` on integers, and the `unichr` range. The next
  three lines give each difference.
- LoadCss.StripPrefix: re-keys the entries in insertion order, as Python 3.7+
  iterates `icons.keys()` (`:69`). Which colliding key wins (`StripLastWins`,
  `StripCollapses`) therefore assumes that order. Earlier versions iterate in
  an unspecified order, and the model does not state what they do.
- Borders.TruncHalf: models Python 3's true division then `int()`. Under
  Python 2, with no `from __future__ import division`, `/` on integers is
  floor division (`:195-196`, `:265-266`). That differs only when the piece is
  wider than the canvas.
- Content.DecodeContent: accepts code points below 0x110000, as `unichr` does
  on Python 3 and on wide Python 2 builds. Narrow Python 2 builds reject
  values above 0xFFFF, and the model does not state this.
- Drop: its contract states only the length of the result. Its body is
  Python's `name[n:]`, and the lemmas about stripping use the body.

## Findings

| source | as written | input that shows it | evidently intended | confidence | as-written member | corrected member |
|---|---|---|---|---|---|---|
| icon_font_to_png/icon_font.py:262-266 | The wrapper export crops the image to the wrapper's box `bbox2` but computes the paste borders from the inner icon's box `bbox`. | `size` 100, inner box (40, 40, 60, 60), wrapper box (0, 0, 100, 100): a 100-pixel piece is pasted at (40, 40) on a 100-pixel canvas and runs 40 pixels past two edges. As written, `scale_font` only ever returns a `None` box (`:101-127`), so the export raises at `:265` first. The mismatch shows once real boxes are supplied. | Borders computed from the box the image was cropped to, as the no-wrapper export does (`:192-196`), so the piece is centred. | medium; not executed; unreachable while `bbox` is always `None` | Borders.WrapperLayout, Borders.WrapperOffCentre, Borders.WrapperOverruns | Borders.CentredWrapperLayout |
