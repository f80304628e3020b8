# HTML e-mail generator, modelled in Dafny

The model covers `EmailHTMLGenerator` from `emailer/generator.py`. The generator
turns an already-parsed configuration into one HTML e-mail:

- It opens the page from a fixed template. The template holds the title twice and the layout width once.
- It appends one fragment per section, in order:
  - `header`, `paragraph` and `footer` sections become a text row, with each newline turned into `<br>`.
  - A `list` section becomes a `<ul>` with one `<li>` per item.
  - An `image` section embeds its file as a `data:image/jpeg;base64,` URI.
  - A `block` section becomes a nested table of rows and columns.
  - A section of any other type contributes nothing.
- It closes the page.

Inside a block there are four column kinds. Icon columns embed their file as a data URI. Image columns refer to their file by Content-ID (`cid:`) and record it in the generator's registry of inline images. Link columns render as a styled button. Text columns hold their content.

The modules, in dependency order:

- `Options`: an option type with a default getter.
- `Strings`: join, replace-all, split, basename, and substring occurrence.
- `Seqs`: the concatenation of per-element fragments (`FlatMap`) and filtering.
- `Base64`: encoding as in section 4 of RFC 4648, with a decoder used to state the round trip.
- `Styles`: style maps as ordered key/value lists, and the `"k: v"; "k: v"` formatting.
- `Document`: the parsed configuration as datatypes, the existing files as a map from path to bytes, and the error values.
- `Fragments`: the HTML every part renders to and the registrations image columns make, written as functions, with lemmas about them.
- `Generator`: the `EmailGenerator` class. It has a configuration field and a registry field. Its builder methods append fragment after fragment in loops, and each is proved to produce what `Fragments` specifies.

The file system is a parameter. Existence of a file is membership of its path in the map, and reading it is a lookup. A missing file is the only I/O failure modelled.

A configuration whose `layout` has no `width` raises `KeyError` in the source. In the model it is the error value `MissingLayoutWidth`.

## Model

| member | source | states |
|---|---|---|
| Strings.ReplaceAll | emailer/generator.py:162 | replacing newlines by `<br>` leaves no newline, changes nothing when there is none, and introduces only characters of the text or of `<br>` |
| Strings.ReplaceAllIsJoinOfSplit | emailer/generator.py:162 | `str.replace(c, r)` is the text cut at every `c` and glued back with `r` |
| Strings.NotContainsJoin | emailer/generator.py:205 | joining two texts that hold no `needle` cannot create one when a character at the seam is not in `needle` |
| Strings.JoinLength | emailer/generator.py:153 | `"; ".join` of n parts has their total length plus n-1 separators; joining nothing gives `""` |
| Strings.Join | emailer/generator.py:153 | `sep.join(parts)`; its length is stated by `JoinLength` |
| Strings.Split | emailer/generator.py:162 | `str.split(c)`: at least one piece, and no piece holds `c`; `SplitJoin` states that the pieces, in order, make up the text |
| Strings.SplitJoin | emailer/generator.py:162 | gluing the pieces of `str.split(c)` back with `c` gives the original text, so the pieces keep its content and order |
| Strings.Basename | emailer/generator.py:294 | `os.path.basename`: never longer than the path; `BasenameIsLastComponent` states the rest |
| Strings.BasenameIsLastComponent | emailer/generator.py:294 | `os.path.basename` is the last path component: it has no `/`, it is a suffix of the path, and a `/` precedes it when it is shorter than the path |
| Strings.BasenameIgnoresDirectory | emailer/generator.py:294 | the basename of `dir/name` is `name`, whatever `dir` is |
| Styles.Lookup | emailer/generator.py:151-152 | `dict.get(key, default)`: the value stored under `key` when present, the default otherwise |
| Styles.WithoutEntries | emailer/generator.py:153 | the `if k != "width"` filter leaves no `width` entry, keeps every entry with another key, and adds none |
| Styles.WithoutIsFilter | emailer/generator.py:153 | dropping a key is the list comprehension's filter `k != key`: the other entries in their original order |
| Styles.Without | emailer/generator.py:153 | dropping a key never lengthens the style list, and changes nothing when the key is absent |
| Styles.Declarations | emailer/generator.py:153 | one `k: v` declaration per style entry |
| Styles.FormatStyle | emailer/generator.py:225 | every entry as `k: v`, joined with `; `; its shape is stated by `FormatStyleSnoc` and `FormatStyleLength` |
| Styles.SectionStyle | emailer/generator.py:153 | the `FormatStyle` of the entries other than `width`; stated by `SectionStyleOnlyWidth` and `SectionStyleKeepsAllButWidth` |
| Styles.FormatStyleSnoc | emailer/generator.py:225 | one more style entry appends `; k: v` to the formatted style (or is `k: v` alone) |
| Styles.FormatStyleLength | emailer/generator.py:225 | the formatted style's length is the sum of the entries' `k: v` lengths plus two per separator |
| Styles.SectionStyleOnlyWidth | emailer/generator.py:153 | a section style map that is empty or holds only `width` formats to `""` |
| Styles.SectionStyleKeepsAllButWidth | emailer/generator.py:153 | the section style equals the row and column formatting of the same map exactly when the map has no `width` key |
| Styles.WithoutFootprint | emailer/generator.py:153 | dropping a key never lengthens the style text, and dropping a present key shortens it by at least that entry |
| Styles.LookupWithout | emailer/generator.py:315-321 | removing one key never changes the lookup of a different key |
| Base64.Encode | emailer/generator.py:69 | the encoding has length 4·⌈n/3⌉, uses only the Base64 alphabet and `=`, and has `=` only in its last two places |
| Base64.CharIndex | emailer/generator.py:69 | the alphabet of section 4 of RFC 4648 is a bijection between 0..63 and its 64 characters |
| Base64.GroupRoundTrip | emailer/generator.py:69 | a full group of three bytes decodes back from its four characters |
| Base64.Tail2RoundTrip | emailer/generator.py:69 | two trailing bytes round-trip through `xxx=` |
| Base64.Tail1RoundTrip | emailer/generator.py:69 | one trailing byte round-trips through `xx==` |
| Base64.DecodeEncode | emailer/generator.py:69 | decoding the encoding of any byte string gives those bytes back |
| Generator.EncodeImageBase64 | emailer/generator.py:57-76 | a payload exists exactly when the file does, and it decodes to the file's bytes |
| Generator.EmbeddedPayload | emailer/generator.py:200-202 | the data URI of an image section is `data:image/jpeg;base64,` followed by `encode_image_base64` of its file |
| Fragments.DataUriRoundTrip | emailer/generator.py:202 | an embedded image's `src` starts with `data:image/jpeg;base64,` and the rest decodes to the file's bytes |
| Fragments.ContentId | emailer/generator.py:294 | the Content-ID contains no `.` and no `/`, and is as long as the basename |
| Fragments.ContentIdIgnoresDirectory | emailer/generator.py:294 | two paths with the same file name get the same Content-ID |
| Fragments.ReplaceAllPointwise | emailer/generator.py:294 | replacing one character by one character keeps the length and changes exactly the positions that held it |
| Fragments.ContentIdPointwise | emailer/generator.py:294 | character by character, the Content-ID is the basename with every `.` turned into `_` and every other character kept |
| Fragments.ImgTagSource | emailer/generator.py:202 | every `<img>` tag starts with `<img src="…"` and holds its source verbatim from position 10 |
| Fragments.ImgTagDefaults | emailer/generator.py:195-196 | an image without width or height renders exactly as one with `100%` and `auto` |
| Fragments.ImgTagLabel | emailer/generator.py:202 | right after its source, every `<img>` tag holds ` alt="{alt}" width="{width}" height="{height}"`, each value verbatim at its place |
| Fragments.NotFoundHoldsAlt | emailer/generator.py:205 | the fallback paragraph holds `Image not found: {alt}` verbatim |
| Fragments.TextHtmlShape | emailer/generator.py:160-163 | a text section is its class's cell around the content cut at newlines and glued with `<br>`, and no newline remains |
| Fragments.EmptyListFrame | emailer/generator.py:165-170 | an empty list renders as the bare `<ul>` frame |
| Fragments.ListItemsVerbatim | emailer/generator.py:168-169 | item i appears verbatim in its own `<li>`, right after the `<li>`s of the items before it |
| Fragments.ImageSectionMissing | emailer/generator.py:199-205 | with the file missing, the section holds `Image not found: {alt}`, does not depend on any file, and refers to no file (`data:` or `cid:`) when the style, width and alt text do not |
| Fragments.NotFoundNoFile | emailer/generator.py:205 | the `Image not found: {alt}` text refers to no file when the alt text does not |
| Fragments.ImageSectionEmbeds | emailer/generator.py:199-203 | with the file present, the section holds `src="data:image/jpeg;base64,<payload>"` whose payload decodes to the file's bytes |
| Fragments.ImageSectionShowsAlt | emailer/generator.py:199-205 | an image section always holds its alt text; with the file present, it holds the tag's alt, width and height attributes |
| Fragments.ColumnWidth | emailer/generator.py:232 | a column's width is its `width` style, else `auto` |
| Fragments.IconColumnEmbeds | emailer/generator.py:265-269 | an icon column embeds its file as a data URI, or shows the fallback text when the file is missing; the fallback refers to no file (`data:` or `cid:`) when the style, width and alt text do not |
| Fragments.ImageColumnReferences | emailer/generator.py:278-282 | an image column refers to its file as `cid:<Content-ID>`, or shows the fallback text when the file is missing; the fallback refers to no file (`data:` or `cid:`) when the style, width and alt text do not |
| Fragments.ButtonLookOf | emailer/generator.py:315-321 | the button's background, text colour, font size and radius are the styles' `background-color-link`, `color`, `font-size` and `border-radius` entries when present and `none`, `#ffffff`, `16px` and `16px` otherwise; its height slot is the `background-button-color` entry, default `none` |
| Fragments.ButtonHeightIgnored | emailer/generator.py:320-321 | a `button-height` style never changes the button |
| Fragments.LinkColumnAnchor | emailer/generator.py:315-332 | a link column holds, right after the button's opening, an anchor to its href (`#` when absent) in the column's text colour with its content verbatim |
| Fragments.UnknownColumnsIgnored | emailer/generator.py:234-241 | dropping every column of unknown type leaves a row's HTML unchanged |
| Fragments.ValidColumnsRender | emailer/generator.py:234-241 | a column renders non-empty exactly when its `type` is `icon`, `text`, `link` or `image` |
| Fragments.IconColumnHtml | emailer/generator.py:248-269 | an icon column's cell; `IconCell` states it opens with `<td class="icon" style="{style}" width="{width}">`, `IconColumnEmbeds` states the data URI or the file-free fallback |
| Fragments.ImageColumnHtml | emailer/generator.py:271-282 | an image column's cell; `ImageCell` states it opens with `<td class="image" style="{style}" width="{width}">`, `ImageColumnReferences` states the `cid:` reference or the file-free fallback |
| Fragments.LinkColumnHtml | emailer/generator.py:302-332 | a link column's button cell; stated by `LinkCell` (opening tag), `LinkButtonLook` (button style from `ButtonLookOf`), `LinkColumnAnchor`, `ButtonLookOf` and `ButtonHeightIgnored` |
| Fragments.LinkButtonLook | emailer/generator.py:315-326 | the inner button cell carries `background-color`, `border-radius`, `font-size` and `height` exactly as `ButtonLookOf` reads them from the column styles, right after the fixed table header |
| Fragments.TextColumnHtml | emailer/generator.py:237-238 | a text column's cell around its content |
| Fragments.ColumnHtml | emailer/generator.py:229-241 | a column's cell by its type, `""` for an unknown type; stated by `KnownColumnCell` and `UnknownColumnsIgnored` |
| Fragments.KnownColumnCell | emailer/generator.py:229-241 | every known column's cell opens with its type's lead and then ` style="{formatted column styles}" width="{column width or auto}">` |
| Fragments.IconCell | emailer/generator.py:267-269 | both branches of an icon cell open with `<td class="icon"` and the given style and width |
| Fragments.TextCell | emailer/generator.py:237 | a text cell opens with `<td` and the given style and width |
| Fragments.LinkCell | emailer/generator.py:322-323 | a link cell opens with `<td class="button-container"` and the given style and width |
| Fragments.ImageCell | emailer/generator.py:280-282 | both branches of an image cell open with `<td class="image"` and the given style and width |
| Fragments.RowHtml | emailer/generator.py:224-243 | a row's `<tr>` around its columns' cells; stated by `RowStyled` and `ColumnsInOrder` |
| Fragments.RowStyled | emailer/generator.py:225-226 | a row opens with `<tr style="{formatted row styles}">` and ends with `</tr>` |
| Fragments.BlockHtml | emailer/generator.py:209-246 | a block's nested table around its rows; stated by `BlockFrame` and `RowsInOrder` |
| Fragments.TextHtml | emailer/generator.py:160-163 | a text section's row; stated by `TextHtmlShape` and `TextRow` |
| Fragments.ListHtml | emailer/generator.py:165-170 | a list section's row; stated by `EmptyListFrame`, `ListItemsVerbatim` and `ListRow` |
| Fragments.ImageSectionHtml | emailer/generator.py:181-207 | an image section's row; stated by `ImageSectionEmbeds`, `ImageSectionShowsAlt`, `ImageSectionMissing` (fallback that refers to no file) and `ImageRow` |
| Fragments.ColumnsInOrder | emailer/generator.py:228-241 | column i's fragment appears in the row right after the fragments of the columns before it |
| Fragments.RowsInOrder | emailer/generator.py:223-243 | row i's `<tr>` appears in the block right after the rows before it |
| Fragments.BlockFrame | emailer/generator.py:221-244 | a block starts with the section cell and the inner `<table>`, ends with `</table></td></tr>`, and holds exactly its rows in between |
| Fragments.Register | emailer/generator.py:295 | after recording the entries, the registry's keys are the old keys plus the entries' Content-IDs |
| Fragments.RegisterAppend | emailer/generator.py:295 | recording two lists of entries one after the other is recording their concatenation |
| Fragments.RegisterProvenance | emailer/generator.py:295 | every registry value was recorded under its id by some entry, or was already there |
| Fragments.RegisterLastWins | emailer/generator.py:295 | the last entry recorded for an id is the one the registry keeps |
| Fragments.RegisteredFromColumns | emailer/generator.py:271-282 | every registration a render makes is the Content-ID of the `src` of an image column of the document |
| Fragments.ColumnRegistered | emailer/generator.py:278-279 | every image column of the document whose file exists yields the registration of its `src` under its Content-ID |
| Fragments.RegisterKeepsWellFormed | emailer/generator.py:284-296 | recording well-formed entries keeps every registry entry a Content-ID mapped to the existing file it was derived from |
| Fragments.ColumnsImagesWellFormed | emailer/generator.py:271-282 | a row's image columns register only existing files, each under its own Content-ID |
| Fragments.RowsImagesWellFormed | emailer/generator.py:223-243 | a block's rows register only existing files, each under its own Content-ID |
| Fragments.SectionsImagesWellFormed | emailer/generator.py:120-121 | a document's sections register only existing files, each under its own Content-ID |
| Fragments.SectionWidth | emailer/generator.py:152 | a section's width is its `width` style, else `100%` |
| Fragments.IsValidSectionType | emailer/generator.py:131-138 | the six type names `validate_section` accepts; tied to rendering by `ValidSectionsRender` |
| Fragments.SectionHtml | emailer/generator.py:140-178 | a section's fragment by its type, `""` for an unknown type; stated by `KnownSectionRenders`, `ValidSectionsRender` and `UnknownSectionsIgnored` |
| Fragments.ValidSectionsRender | emailer/generator.py:131-178 | a section renders non-empty exactly when `validate_section` accepts its type |
| Fragments.KnownSectionRenders | emailer/generator.py:160-176 | a recognised section is one table row: it opens with `<tr><td class=".." style=".." width="..">` holding its class, style text and width, and closes with `</td></tr>` |
| Fragments.TextRow | emailer/generator.py:160-163 | a text section opens with its kind's cell and closes with `</td></tr>` |
| Fragments.ListRow | emailer/generator.py:165-170 | a list section opens with the `content` cell and closes with `</td></tr>` |
| Fragments.ImageRow | emailer/generator.py:199-205 | an image section opens with the `content` cell and closes with `</td></tr>`, whether or not its file exists |
| Fragments.BlockRow | emailer/generator.py:221-244 | a block section opens with the `content` cell and closes with `</td></tr>` |
| Fragments.SectionsInOrder | emailer/generator.py:120-121 | section i's fragment appears in the e-mail body right after the fragments of the sections before it |
| Fragments.UnknownSectionsIgnored | emailer/generator.py:140-178 | dropping every section of unknown type leaves the sections' HTML unchanged |
| Fragments.LayoutWidth | emailer/generator.py:117 | the layout width is `600px` without a layout, the layout's `width` when it has one, an error exactly when a layout has no `width`, and that error is `MissingLayoutWidth` |
| Fragments.RenderFails | emailer/generator.py:117 | rendering fails exactly when the layout lacks `width`, with `MissingLayoutWidth` |
| Fragments.RenderDocument | emailer/generator.py:78-124 | the page opening, every section's fragment in order, the closing; stated by `RenderFails`, `RenderTitle`, `RenderLayoutWidth` and `SectionsInOrder` |
| Fragments.HtmlStart | emailer/generator.py:82-108 | the template opening with the title in both slots and the layout width in one; stated by `RenderTitle` and `RenderLayoutWidth` |
| Fragments.RenderTitle | emailer/generator.py:87-89 | a rendered page holds the title (default `Email`) verbatim in both `<title>` slots, whatever the sections render to |
| Fragments.RenderLayoutWidth | emailer/generator.py:92 | a rendered page holds the layout width (default `600px`) verbatim in the container's `max-width`, right after the second title |
| Fragments.RenderSkipsUnknownSections | emailer/generator.py:120-121 | dropping the sections of unknown type leaves the whole e-mail unchanged |
| Fragments.DocumentImagesWellFormed | emailer/generator.py:284-296 | after a render, every registry entry maps the Content-ID of an existing file to that file, that file is the `src` of an image column of the document, and conversely the Content-ID of every image column of the document whose file exists is registered |
| Generator.EmailGenerator.constructor | emailer/generator.py:11-32 | a new generator holds the configuration and an empty registry |
| Generator.EmailGenerator.AddInlineImage | emailer/generator.py:284-296 | returns the Content-ID, which has no `.`; maps it to the path; leaves every other entry alone; a repeated basename overwrites |
| Generator.EmailGenerator.GetInlineImages | emailer/generator.py:298-300 | returns the registry as it stands |
| Generator.EmailGenerator.BuildImageColumn | emailer/generator.py:271-282 | returns the image column's fragment and registers the file exactly when it exists |
| Generator.EmailGenerator.BuildColumn | emailer/generator.py:229-241 | returns the column's fragment and records that column's registrations |
| Generator.EmailGenerator.BuildRow | emailer/generator.py:224-243 | the column loop produces the row's `<tr>` and records its image columns in order |
| Generator.EmailGenerator.BuildBlockSection | emailer/generator.py:209-246 | the row loop produces the block's fragment and records its image columns in order |
| Generator.EmailGenerator.AppendItems | emailer/generator.py:168-169 | the item loop appends exactly the `<li>`s of the list, in order |
| Generator.EmailGenerator.BuildSection | emailer/generator.py:140-178 | returns the section's fragment and records the registrations of a block |
| Generator.EmailGenerator.AppendSections | emailer/generator.py:120-121 | the section loop appends every section's fragment in order and records every registration in order |
| Generator.EmailGenerator.GenerateHtml | emailer/generator.py:78-124 | the result is the rendered document or its layout error; afterwards the registry holds exactly the document's registrations |
| Generator.GenerateHtmlAsWritten | emailer/generator.py:11-32 | without an initialised registry, a render succeeds only when there is nothing to register, and then agrees with the repaired render |
| Generator.RegisterAsWritten | emailer/generator.py:295 | recording into a registry that was never created fails exactly when there is something to record; otherwise it records as the repaired registry does |
| Generator.RegistryDefect | emailer/generator.py:278-296 | a block with one image column whose file exists fails as written, while the repaired generator renders it and registers the image |

## Left out

- Loading the configuration (`load_config`, YAML parsing, its exceptions) is not modelled. The model takes the parsed configuration as a `Document` value. Keys absent from the configuration are `None` or empty values.
- Configuration values are strings. A YAML number or list where the code interpolates a string is not modelled.
- A section or column without a `type` key, or with an unrecognised one, is the `UnknownSection` or `UnknownColumn` case. The type names themselves appear only through `SectionTypeName` and `ColumnTypeName`.
- The constructor's logger set-up, `os.makedirs("target")` and the log message are not modelled: they are side effects on the environment.
- Every logging call is not modelled, including the warning of `validate_section`. Only its set of accepted type names (`IsValidSectionType`) is modelled, because the warning does not change the output.
- Writing the HTML to `output_file` at the end of `generate_html` is not modelled. `GenerateHtml` returns the string instead.
- Reading files is not modelled. `os.path.exists` and `open(...).read()` become membership and lookup in the `FileSystem` map. Exceptions other than a missing file (permissions, a directory path, a file that changes between the two calls) are not modelled.
- The template's CSS is abbreviated and its indentation is dropped. The model keeps the two `<title>` slots, the layout-width slot, and the page's opening and closing structure. The link column keeps its whitespace.
- `emailer/cli.py` and the entry points under `src/` are not part of this model.
- Generator.EmailGenerator.BuildColumn: icon, text and link columns compute their fragment with the pure `ColumnHtml` rather than with a method of their own, because they change no state.
- Generator.EmailGenerator.GenerateHtml: the loops of `generate_html` and of the list branch are separate methods, `AppendSections` and `AppendItems`. This keeps the template text out of the loop proofs. The order of appends is the source's.
- Styles.Lookup: a style map is assumed to have distinct keys, as a YAML mapping does. With a repeated key `Lookup` takes the first entry, while `FormatStyle` emits every entry.
- Strings.Basename: paths are POSIX paths. The basename is the text after the last `/`; the Windows rules of `os.path.basename` (a `\` separator, a drive letter) are not modelled.
- Fragments.RenderTitle: it is stated for the page frame `Framed(doc, body)` with any body. `RenderDocument(doc, fs)` is that frame around `SectionsHtml(doc.sections, fs)`.

## Findings

| source | as written | input that shows it | evidently intended | confidence | as-written member | corrected member |
|---|---|---|---|---|---|---|
| emailer/generator.py:11-32 | `__init__` never creates `self.inline_images`, so the first `add_inline_image` raises `AttributeError` and `generate_html` produces nothing | a configuration with a `block` section holding one `image` column whose `src` exists | the registry starts empty, and every existing image column is registered under its Content-ID | not executed | Generator.RegistryDefect | Generator.EmailGenerator.GenerateHtml |

The repair is deliberate. `GenerateHtml` empties the registry at the start of every call, and the constructor starts it empty. After a successful render the registry is then exactly `DocumentImages`, the document's own registrations. `Fragments.DocumentImagesWellFormed` proves that this registry holds only existing files under their Content-IDs.
