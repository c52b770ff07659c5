# make-dark: a verified model of the draw.io dark-mode converter

`scripts/make-dark.py` turns light-mode draw.io diagrams into dark-mode
copies. It works purely on the text of the `.drawio` file, in two steps.

1. Every bare `<mxGraphModel>` tag gets the dark canvas background
   `background="#1e1e1e"`.
2. Every `style="..."` attribute value is passed through `transform_style`.
   That function first runs thirteen case-insensitive colour substitutions
   taken from the tables `FILL_MAP`, `STROKE_MAP` and `FONT_MAP`. It then
   applies a four-way fallback, which may strip the trailing `;` characters
   and append one of three fixed suffixes. Whether a value belongs to an
   edge is read from a window of the text before any style was rewritten
   (after the background insertion): from the last `<mxCell` before the match to the end of the match.

The model is split into four modules:

- `Strings` (`strings.dfy`) holds the Python primitives the script uses:
  - `in`, `str.rfind`, `str.rstrip` and slicing with negative indices;
  - `re.sub` with a literal pattern, optionally ignoring ASCII case;
  - `str.split` and `str.join` as a reference description of a global
    replace;
  - the general facts about `re.sub` that the other modules rely on, each
    under its own hypothesis. `re.sub` always takes the leftmost occurrence
    and resumes after it. The other facts hold for a replacement as long as
    the pattern:
    - it changes the text only inside the blocks it writes
      (`ReplacePointwise`);
    - it creates no occurrence of a pattern `q` when writing the replacement
      over an occurrence can never complete a `q` (`ReplaceNoNewMatch`);
    - it rewrites every occurrence of a pattern that cannot overlap itself
      (`ReplaceTakesEveryMatch`);
    - no occurrence is left when no placement of the pattern agrees with the
      replacement (`ReplaceRemoves`).
- `Palette` (`palette.dfy`) holds:
  - the three tables, in dictionary order;
  - the thirteen passes;
  - the facts about them: every light key goes away, each isolated one
    (overlapping no other light key) becomes its dark key, the length is kept, and the passes are idempotent.
- `Style` (`style.dfy`) holds `transform_style`, written as the script
  writes it: three loops rebinding the style, then the flags and the
  conditional rebinding. It sits next to its specification function
  `TransformedStyle` and the lemmas about the fallback.
- `Document` (`document.dfy`) holds the text logic of `transform_file`:
  - the background insertion;
  - the edge window of `replace_style`;
  - the left-to-right scan for `style="([^"]*)"`;
  - the method that builds the output in one loop over the matches.

`re.sub` calls back into `replace_style` for each match. The model mirrors
this: the scan takes the edge test as a function parameter (`ScanFrom(c,
from, edge)`), and `EdgeTest(c)` is the test on the text `c` as it was
before any style was rewritten.

## Model

| member | source | states |
|---|---|---|
| Palette.Substitute | scripts/make-dark.py:35-56 | the thirteen substitution passes keep the length of the style, because every light and dark value is a seven-character colour |
| Palette.AllConsistent | scripts/make-dark.py:10-30 | every table entry is a pair of distinct seven-character colours, and no dark value of a table is a light value of the same table |
| Palette.ApplyConcat | scripts/make-dark.py:35-56 | running the fill passes, then the stroke passes, then the font passes is running the thirteen passes in that order |
| Palette.NoLightKeyRemains | scripts/make-dark.py:35-56 | after the passes no `fillColor=`/`strokeColor=`/`fontColor=` followed by a light value of its table remains, in any case |
| Palette.LightKeyBecomesDark | scripts/make-dark.py:35-56 | a light key in any case, overlapping no other light key, becomes the canonical attribute name with its dark value at the same place ; the text after the key, such as the `80` of `fillColor=#dae8fc80`, is kept by `SubstituteUntouched` |
| Palette.Pass | scripts/make-dark.py:36-56 | one `re.sub(pattern, replacement, style, flags=re.IGNORECASE)` call of the loops over the tables; its properties are `Strings.ReplaceAll`'s and the lemmas below |
| Palette.Apply | scripts/make-dark.py:35-56 | the loops over the tables, one pass per rule in order; `ApplyConcat`, `ApplyRewrites` and `SubstituteIdempotent` state what it does |
| Palette.FontKeySharesF | scripts/make-dark.py:18-30 | in `strokeColor=#6c8ebfontColor=#333333` the font key `fontColor=#333333` occurs at index 18, sharing its `f` with a stroke key at index 0, so it is not isolated |
| Palette.StrokePassEatsFontKey | scripts/make-dark.py:36-56 | the stroke pass turns `strokeColor=#6c8ebfontColor=#333333` into `strokeColor=#6a9fd8ontColor=#333333`: the first stroke pass rewrites the font key's `f` |
| Palette.SubstituteUntouched | scripts/make-dark.py:35-56 | text that no light-key occurrence overlaps comes out of the passes unchanged |
| Palette.SubstituteIdentity | scripts/make-dark.py:35-56 | a style with no light key passes through the substitutions unchanged |
| Palette.SubstituteIdempotent | scripts/make-dark.py:35-56 | running the substitutions twice is the same as running them once |
| Palette.SubstituteQuoteFree | scripts/make-dark.py:35-56 | the substitutions never introduce a double quote |
| Palette.ApplyRewrites | scripts/make-dark.py:35-56 | an isolated light key of any rule in a consistent list ends up as that rule's dark key after all the passes |
| Style.Finish | scripts/make-dark.py:58-76 | the flags and the four-way fallback after the substitutions; `FinishShape`, the two `...UnchangedIff` lemmas, `FinishHasFontColor`, `FinishHasFill` and `FinishIdempotent` state what it does |
| Style.TransformedStyle | scripts/make-dark.py:33-78 | `transform_style` as a function: the substitutions followed by the fallback; `TransformStyle`, `TransformIdempotent` and `TransformQuoteFree` state what it does |
| Style.TransformStyle | scripts/make-dark.py:33-78 | the method with the script's three loops and its conditional rebinding returns `TransformedStyle(style, is_edge)` |
| Style.FinishShape | scripts/make-dark.py:62-78 | nothing else changes: the result is the substituted style itself, or that style with all trailing `;` stripped followed by exactly one of `;fontColor=#cccccc;`, `;fontColor=#ffffff;` or the default fill, stroke and font suffix |
| Style.EdgeUnchangedIff | scripts/make-dark.py:62-65 | an edge comes back unchanged if and only if it already has a (case-sensitive) `fontColor=`, even when it is also `fillColor=none`/`strokeColor=none` |
| Style.ShapeUnchangedIff | scripts/make-dark.py:66-76 | a non-edge style comes back unchanged if and only if it has both `fontColor=` and `fillColor=` |
| Style.FinishHasFontColor | scripts/make-dark.py:62-76 | every result of the fallback has `fontColor=` |
| Style.FinishHasFill | scripts/make-dark.py:66-76 | every non-edge result of the fallback has `fillColor=` |
| Style.DefaultRepeatsFontColor | scripts/make-dark.py:74-76 | a non-edge style with no `fillColor=` gets the default suffix after stripping `;`, even when it has `fontColor=`, which then occurs twice |
| Style.FinishIdempotent | scripts/make-dark.py:62-76 | applying the fallback a second time changes nothing |
| Style.TransformIdempotent | scripts/make-dark.py:33-78 | `transform_style` is idempotent for a fixed `is_edge` |
| Style.CapitalLightKeyRewritten | scripts/make-dark.py:35-40 | substitution ignores case: `FILLCOLOR=#DAE8FC` becomes `fillColor=#1e4d8c`, and the shape then gets `;fontColor=#ffffff;` |
| Style.CapitalFillNotSeen | scripts/make-dark.py:58-60 | the flags do not ignore case: `FILLCOLOR=none` counts as having no fill, so it gets the default suffix and a second fill colour |
| Style.TransformQuoteFree | scripts/make-dark.py:33-78 | a style without a double quote comes out without one, so the rewritten value cannot close its attribute early |
| Document.AddBackground | scripts/make-dark.py:85-89 | the `re.sub` that adds the background; `BackgroundEveryTag` and `BackgroundOnlyOnBareTag` state what it does |
| Document.BackgroundEveryTag | scripts/make-dark.py:85-89 | cut at the bare `<mxGraphModel>` tags, the content is glued back together with the tag that carries the background: every occurrence is rewritten and nothing else changes |
| Document.BackgroundOnlyOnBareTag | scripts/make-dark.py:85-89 | content with no bare `<mxGraphModel>` (for instance only tags with attributes) is left as it is |
| Document.IsEdge | scripts/make-dark.py:92-97 | `replace_style`'s edge test on a match from `start` to `end`; `EdgeWindow`, `NoCellNeverEdge`, `EdgeIgnoresLaterText` and `EdgeMarkBeforeEnd` state what it does |
| Document.EdgeWindow | scripts/make-dark.py:92-97 | a match is an edge if and only if `edge="1"` occurs between the last `<mxCell` before the match and the end of the match |
| Document.NoCellNeverEdge | scripts/make-dark.py:94-97 | a match with no earlier `<mxCell` is never an edge, because the Python index -1 leaves a window of at most one character |
| Document.EdgeIgnoresLaterText | scripts/make-dark.py:94-97 | text after the end of the match never counts, so an `edge="1"` written after the style attribute is missed |
| Document.EdgeMarkBeforeEnd | scripts/make-dark.py:94-97 | an edge always has `edge="1"` somewhere before the end of its match |
| Document.ScannedSpans | scripts/make-dark.py:92-101 | every match of a scan faithful to `re.sub` lies inside the text and carries the flag the callback's edge test gives at its place |
| Document.ScanSpans | scripts/make-dark.py:92-101 | the same for the scan itself, whatever the edge test |
| Document.ScannedEdges | scripts/make-dark.py:92-101 | every match the scan of a text `c` takes, from `style="` at `i` to its closing quote at `q`, carries the flag `IsEdge(c, i, q + 1)` that `replace_style` computes on `c`, the text before any style is rewritten |
| Document.NextStyle | scripts/make-dark.py:101 | the next match of `style="([^"]*)"` at or after a position, if any, starts there or later and ends inside the text |
| Document.EdgeTest | scripts/make-dark.py:92-97 | `replace_style`'s edge test closed over the text `c` that `re.sub` runs on; `ScannedEdges` states what the scan gets from it |
| Document.Render | scripts/make-dark.py:99-101 | the text `re.sub` assembles: the text before each match, then `style="`, the group and the closing quote, and the text after the last match; `ScanRender` and `RestyleText` state what it gives |
| Document.ScanFrom | scripts/make-dark.py:101 | the matches `re.sub` visits, left to right, with the text before each one and after the last; `ScanRender` and `ScanFaithful` state what it does |
| Document.Restyle | scripts/make-dark.py:92-101 | `replace_style` applied to every group of the scan; `RestyleKeepsFrame` and `RestyleQuoteFree` state what it does |
| Document.TransformedText | scripts/make-dark.py:84-101 | the text `transform_file` writes: the background, then every style rewritten; `TransformedTextShape`, `PlainTextUnchanged` and `TransformText` state what it does |
| Document.NextStyleLeftmost | scripts/make-dark.py:101 | the search finds a match of `style="([^"]*)"` exactly when there is one at or after the position, and it finds the leftmost |
| Document.ScanRender | scripts/make-dark.py:101 | the pieces of the scan spell out the scanned text exactly |
| Document.ScanFaithful | scripts/make-dark.py:101 | every step of the scan takes the leftmost match after the previous one, with its group and the edge flag the test gives, and the text between matches holds no match |
| Document.RestyleKeepsFrame | scripts/make-dark.py:92-101 | only the groups change: the text before each match and after the last one, the number of matches and their edge flags stay the same |
| Document.ScannedQuoteFree | scripts/make-dark.py:101 | no group the scan takes contains a double quote |
| Document.RestyleQuoteFree | scripts/make-dark.py:92-101 | the rewritten groups stay free of double quotes |
| Document.TransformedTextShape | scripts/make-dark.py:84-101 | for the text after the background insertion, the scan spells out that text, is faithful to `re.sub`, keeps its frame, gives every match the flag `replace_style`'s test on that text computes at its place (`SpansRead`; `ScannedEdges` spells it out) and has quote-free rewritten groups |
| Document.PlainTextUnchanged | scripts/make-dark.py:84-101 | a text with no bare `<mxGraphModel>` and no `style="` is written back as it was read |
| Document.RestyleNext | scripts/make-dark.py:92-101 | one turn of the loop: after writing the next match with its group rewritten, what is still to be written is the restyled rest of the scan |
| Document.RestyleText | scripts/make-dark.py:92-101 | the loop over match positions builds exactly the restyled scan of the text |
| Document.TransformText | scripts/make-dark.py:84-101 | the method builds exactly `TransformedText(content)`: the background, then every style rewritten with its edge context from the text before the rewrite |
| Strings.ReplaceAll | scripts/make-dark.py:36-56 | `re.sub` with a literal pattern, optionally ignoring ASCII case; a replacement as long as the pattern keeps the length, and the lemmas below state the rest |
| Strings.Contains | scripts/make-dark.py:58-60 | Python's `in` on strings holds exactly when the pattern occurs somewhere, in the same case |
| Strings.FindFromFirst | scripts/make-dark.py:36-56 | the literal search finds an occurrence whenever there is one at or after the position, and none before the one it returns |
| Strings.RFind | scripts/make-dark.py:95 | `rfind` returns the last index where the pattern starts, or -1 when there is none |
| Strings.RStrip | scripts/make-dark.py:65 | `rstrip(';')` drops every trailing `;` and nothing else |
| Strings.Slice | scripts/make-dark.py:96 | Python slicing, including a negative start counted from the end |
| Strings.ReplaceTakesEveryMatch | scripts/make-dark.py:36-56 | `re.sub` with a pattern whose occurrences cannot overlap rewrites every occurrence, not only the first |
| Strings.ReplaceRemoves | scripts/make-dark.py:36-56 | when the replacement cannot overlap the pattern, no occurrence of the pattern is left |
| Strings.ReplaceNoNewMatch | scripts/make-dark.py:36-56 | a replacement that cannot create a pattern `q` leaves no occurrence of `q` that was not there before |
| Strings.ReplaceAbsent | scripts/make-dark.py:36-56 | `re.sub` without a match returns its input |
| Strings.SplitJoin | scripts/make-dark.py:85-89 | splitting at a separator and joining back gives the original text, and no part contains the separator |
| Strings.ReplaceJoin | scripts/make-dark.py:85-89 | replacing a self-overlap-free pattern in a join of parts that hold no occurrence of it is joining with the replacement |
| Strings.ReplaceKeepsOut | scripts/make-dark.py:36-56 | `re.sub` introduces no character that neither its input nor its replacement holds |

## Left out

- File reading and writing (lines 82 and 103), the progress `print` (line 104) and the `__main__` driver (lines 107-114): these are I/O and fixed file names, with no logic. `TransformText` takes the text that was read and returns the text to be written.
- The general Python `re` engine. Each of the script's patterns is modelled directly: literal search and replace for the thirteen substitutions and the background tag, and a search for `style="`, then for the next `"`, for `style="([^"]*)"`.
- Unicode case folding: the substitutions ignore ASCII case only. Python's `re.IGNORECASE` on `str` patterns also lets `ſ` (U+017F) match `s`, the Kelvin sign (U+212A) match `k`, and the dotless `ı` (U+0131) and dotted `İ` (U+0130) match `i` (as in `fillColor`), so a style written with those characters would be rewritten by the script but not by the model.
- XML: the script never parses the document, and neither does the model.
- Palette.LightKeyBecomesDark: requires the light key to be overlapped by no other light key. For malformed text such as `strokeColor=#6c8ebfontColor=#333333` (no `;`), the stroke pass rewrites the shared `f`, and the font key is then no longer there to rewrite.
- Palette.ApplyRewrites: carries the same isolation requirement, for the same reason.
