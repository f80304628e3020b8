/**
 * The HTML each part of a document renders to, as functions of the part and
 * of the files that exist. These are the pure builders of the generator
 * (image sections, icon, image and link columns) and the specifications the
 * generator's loops are proved against (lists, blocks, whole documents), and
 * the Content-ID registrations image columns make, in the order they make them.
 */
module Fragments {
  import opened Options
  import opened Strings
  import opened Base64
  import opened Styles
  import opened Document
  import opened Seqs

  // ---------------------------------------------------------------- images

  /** Every embedded image is declared as JPEG, whatever its bytes are. */
  const DataUriPrefix: string := "data:image/jpeg;base64,"

  /** The self-contained `src` for an image: its bytes, Base64-encoded. */
  function DataUri(data: seq<byte>): string {
    DataUriPrefix + Encode(data)
  }

  /** The payload after the prefix decodes back to the image's bytes. */
  lemma DataUriRoundTrip(data: seq<byte>)
    ensures DataUri(data)[..|DataUriPrefix|] == DataUriPrefix
    ensures Decode(DataUri(data)[|DataUriPrefix|..]) == Some(data)
  {
    assert DataUri(data)[|DataUriPrefix|..] == Encode(data);
    DecodeEncode(data);
  }

  /**
   * The Content-ID of an image column: the file's basename with every `.`
   * replaced by `_`.
   */
  function ContentId(path: string): (cid: string)
    ensures '.' !in cid && '/' !in cid
    ensures |cid| == |Basename(path)|
  {
    ReplaceAllLength(Basename(path), '.', "_");
    BasenameIsLastComponent(path);
    ReplaceAll(Basename(path), '.', "_")
  }

  lemma {:induction false} ReplaceAllLength(s: string, c: char, repl: string)
    requires |repl| == 1
    ensures |ReplaceAll(s, c, repl)| == |s|
    decreases |s|
  {
    if |s| > 0 {
      ReplaceAllLength(s[..|s| - 1], c, repl);
    }
  }

  /** Replacing by one character maps the text position by position. */
  lemma {:induction false} ReplaceAllPointwise(s: string, c: char, r: char)
    ensures |ReplaceAll(s, c, [r])| == |s|
    ensures forall i :: 0 <= i < |s| ==> ReplaceAll(s, c, [r])[i] == (if s[i] == c then r else s[i])
    decreases |s|
  {
    if |s| > 0 {
      var init := s[..|s| - 1];
      ReplaceAllPointwise(init, c, r);
      assert forall i :: 0 <= i < |init| ==> s[i] == init[i];
    }
  }

  /**
   * The Content-ID is the basename with each `.` turned into `_` in place and
   * every other character kept.
   */
  lemma ContentIdPointwise(path: string)
    ensures forall i :: 0 <= i < |Basename(path)| ==>
      ContentId(path)[i] == (if Basename(path)[i] == '.' then '_' else Basename(path)[i])
  {
    ReplaceAllPointwise(Basename(path), '.', '_');
  }

  /** Only the file name matters: images in different directories with one name share an id. */
  lemma ContentIdIgnoresDirectory(dir: string, name: string)
    requires '/' !in name
    ensures ContentId(dir + "/" + name) == ContentId(name)
  {
    BasenameIgnoresDirectory(dir, name);
    BasenameIgnoresDirectory("", name);
    assert "" + "/" + name == "/" + name;
    BasenameOfName(name);
  }

  lemma {:induction false} BasenameOfName(name: string)
    requires '/' !in name
    ensures Basename(name) == name
    decreases |name|
  {
    if |name| > 0 {
      BasenameOfName(name[..|name| - 1]);
    }
  }

  function ImageWidth(image: ImageRef): string { image.width.GetOr("100%") }

  function ImageHeight(image: ImageRef): string { image.height.GetOr("auto") }

  /**
   * The `<img>` tag: where the image comes from, then its attributes.
   */
  function ImgTag(src: string, image: ImageRef, gap: string): string {
    ImgSrc(src) + ImgAttributes(image, gap)
  }

  /** The opening `<img src="..."`, the part that says where the image comes from. */
  function ImgSrc(src: string): string {
    "<img src=\"" + src + "\""
  }

  /**
   * Alt text, size attributes and the inline size style. The image section
   * puts two spaces before `style`, the columns one; `gap` carries that
   * difference.
   */
  function ImgAttributes(image: ImageRef, gap: string): string {
    ImgLabel(image) + ImgStyle(image, gap)
  }

  /** ` alt=".." width=".." height=".."`, the attributes that follow the source. */
  function ImgLabel(image: ImageRef): string {
    " alt=\"" + image.alt + "\" width=\"" + ImageWidth(image) + "\" height=\"" + ImageHeight(image) + "\""
  }

  /** The inline size style that closes the tag. */
  function ImgStyle(image: ImageRef, gap: string): string {
    gap + "style=\"width: " + ImageWidth(image) + "; height: " + ImageHeight(image) + ";\">"
  }

  /**
   * Right after its source, every `<img>` tag holds the alt text, the width
   * (default `100%`) and the height (default `auto`), each verbatim in its
   * attribute.
   */
  lemma ImgTagLabel(src: string, image: ImageRef, gap: string)
    ensures OccursAt(ImgTag(src, image, gap), ImgLabel(image), |ImgSrc(src)|)
    ensures OccursAt(ImgLabel(image), image.alt, 6)
    ensures OccursAt(ImgLabel(image), ImageWidth(image), |image.alt| + 15)
    ensures OccursAt(ImgLabel(image), ImageHeight(image), |image.alt| + |ImageWidth(image)| + 25)
  {
    assert ImgTag(src, image, gap) == ImgSrc(src) + ImgLabel(image) + ImgStyle(image, gap);
    ContainsMiddle(ImgSrc(src), ImgLabel(image), ImgStyle(image, gap));
    ThreeSlots(" alt=\"", image.alt, "\" width=\"", ImageWidth(image), "\" height=\"", ImageHeight(image), "\"");
  }

  /** Where three values put between fixed pieces of text stand. */
  lemma ThreeSlots(a: string, x: string, b: string, y: string, c: string, z: string, d: string)
    ensures OccursAt(a + x + b + y + c + z + d, x, |a|)
    ensures OccursAt(a + x + b + y + c + z + d, y, |a| + |x| + |b|)
    ensures OccursAt(a + x + b + y + c + z + d, z, |a| + |x| + |b| + |y| + |c|)
  {
    OccursAtEnd(a, x);
    ExtendThree(a + x, x, |a|, b, y, c);
    OccursAtExtend(a + x + b + y + c, x, |a|, z);
    OccursAtExtend(a + x + b + y + c + z, x, |a|, d);
    OccursAtEnd(a + x + b, y);
    ExtendThree(a + x + b + y, y, |a| + |x| + |b|, c, z, d);
    OccursAtEnd(a + x + b + y + c, z);
    OccursAtExtend(a + x + b + y + c + z, z, |a + x + b + y + c|, d);
  }

  /** The source stands verbatim at the start of the tag, right after `<img src="`. */
  lemma ImgTagSource(src: string, image: ImageRef, gap: string)
    ensures OccursAt(ImgTag(src, image, gap), ImgSrc(src), 0)
    ensures OccursAt(ImgTag(src, image, gap), src, 10)
  {
    var attrs := ImgAttributes(image, gap);
    OccursAtEnd("", ImgSrc(src));
    assert "" + ImgSrc(src) == ImgSrc(src);
    OccursAtExtend(ImgSrc(src), ImgSrc(src), 0, attrs);
    OccursAtEnd("<img src=\"", src);
    OccursAtExtend("<img src=\"" + src, src, 10, "\"");
    OccursAtExtend(ImgSrc(src), src, 10, attrs);
  }

  /** An absent width or height renders exactly as `100%` or `auto`. */
  lemma ImgTagDefaults(src: string, alt: string, gap: string)
    ensures ImgTag(src, ImageRef(src, alt, None, None), gap)
         == ImgTag(src, ImageRef(src, alt, Some("100%"), Some("auto")), gap)
  {
  }

  /** What replaces any image whose file does not exist. */
  function NotFound(alt: string): string {
    "<p>" + NotFoundText(alt) + "</p>"
  }

  function NotFoundText(alt: string): string {
    "Image not found: " + alt
  }

  /** The fallback paragraph holds the alt text verbatim, three characters in. */
  lemma NotFoundHoldsAlt(alt: string)
    ensures OccursAt(NotFound(alt), NotFoundText(alt), 3)
  {
    ContainsMiddle("<p>", NotFoundText(alt), "</p>");
  }

  // ------------------------------------------------------ file references

  /** Neither of the two ways an `<img>` points at a file, `data:` or `cid:`, occurs in `s`. */
  predicate RefersToNoFile(s: string) {
    !Contains(s, "data:") && !Contains(s, "cid:")
  }

  /** A character of neither `data:` nor `cid:`: no reference can run across it. */
  predicate OutsideSchemes(ch: char) {
    ch !in "data:" && ch !in "cid:"
  }

  lemma NoColonNoFile(s: string)
    requires ':' !in s
    ensures RefersToNoFile(s)
  {
    NotContainsChar(s, "data:", 4);
    NotContainsChar(s, "cid:", 3);
  }

  lemma NoFileJoin(a: string, b: string)
    requires RefersToNoFile(a) && RefersToNoFile(b)
    requires (|a| > 0 && OutsideSchemes(a[|a| - 1])) || (|b| > 0 && OutsideSchemes(b[0]))
    ensures RefersToNoFile(a + b)
  {
    NotContainsJoin(a, b, "data:");
    NotContainsJoin(a, b, "cid:");
  }

  /** A value put between two pieces of text that end and start outside the schemes. */
  lemma NoFileSlot(a: string, x: string, b: string)
    requires RefersToNoFile(a) && RefersToNoFile(x) && RefersToNoFile(b)
    requires |a| > 0 && OutsideSchemes(a[|a| - 1])
    requires |b| > 0 && OutsideSchemes(b[0])
    ensures RefersToNoFile(a + x + b)
    ensures (a + x + b)[|a + x + b| - 1] == b[|b| - 1]
  {
    NoFileJoin(a, x);
    NoFileJoin(a + x, b);
  }

  /** The fallback paragraph refers to no file unless its alt text does. */
  lemma NotFoundNoFile(alt: string)
    requires RefersToNoFile(alt)
    ensures RefersToNoFile(NotFound(alt))
  {
    var head := "<p>Image not foun";
    assert NotFound(alt) == head + "d: " + alt + "</p>";
    NoColonNoFile(head);
    NoColonNoFile("</p>");
    NoFileJoin(head, "d: ");
    NoFileSlot(head + "d: ", alt, "</p>");
  }

  /** A column cell's opening refers to no file unless its class, style or width does. */
  lemma ColumnCellNoFile(cls: string, style: string, width: string)
    requires RefersToNoFile(cls) && RefersToNoFile(style) && RefersToNoFile(width)
    ensures RefersToNoFile(ColumnCell(cls, style, width))
    ensures ColumnCell(cls, style, width)[|ColumnCell(cls, style, width)| - 1] == '>'
  {
    NoColonNoFile("<td class=\"");
    NoColonNoFile("\"");
    NoFileSlot("<td class=\"", cls, "\"");
    NoColonNoFile(" style=\"");
    NoColonNoFile("\" width=\"");
    NoColonNoFile("\">");
    NoFileSlot(" style=\"", style, "\" width=\"");
    NoFileSlot(" style=\"" + style + "\" width=\"", width, "\">");
    NoFileJoin(CellLead(cls), CellAttributes(style, width));
  }

  /** A section cell's opening refers to no file unless its class, style or width does. */
  lemma RowCellNoFile(cls: string, style: string, width: string)
    requires RefersToNoFile(cls) && RefersToNoFile(style) && RefersToNoFile(width)
    ensures RefersToNoFile(RowCell(cls, style, width))
    ensures RowCell(cls, style, width)[|RowCell(cls, style, width)| - 1] == '>'
  {
    var l0, l1, l2, l3 := "<tr><td class=\"", "\" style=\"", "\" width=\"", "\">";
    NoColonNoFile(l0);
    NoColonNoFile(l1);
    NoColonNoFile(l2);
    NoColonNoFile(l3);
    NoFileSlot(l0, cls, l1);
    NoFileSlot(l0 + cls + l1, style, l2);
    NoFileSlot(l0 + cls + l1 + style + l2, width, l3);
  }

  /**
   * A fallback cell, whether a section's or a column's, refers to no file
   * when its style, width and alt text do not.
   */
  lemma FallbackNoFile(cell: string, alt: string, close: string)
    requires RefersToNoFile(cell) && |cell| > 0 && cell[|cell| - 1] == '>'
    requires RefersToNoFile(alt) && close in {RowCellEnd, "</td>"}
    ensures RefersToNoFile(cell + NotFound(alt) + close)
  {
    NotFoundNoFile(alt);
    NoFileJoin(cell, NotFound(alt));
    NoColonNoFile(close);
    NoFileJoin(cell + NotFound(alt), close);
  }

  // ------------------------------------------------------- section pieces

  /** `<tr><td class=".." style=".." width="..">`, the opening of every section row. */
  function RowCell(cls: string, style: string, width: string): string {
    "<tr><td class=\"" + cls + "\" style=\"" + style + "\" width=\"" + width + "\">"
  }

  const RowCellEnd: string := "</td></tr>"

  /** A header, paragraph or footer: one cell whose text has every newline turned into `<br>`. */
  function TextHtml(kind: TextKind, content: string, style: string, width: string): string {
    RowCell(KindName(kind), style, width) + ReplaceAll(content, '\n', "<br>") + RowCellEnd
  }

  /**
   * The cell of a text section holds the content cut at its newlines and
   * glued back with `<br>`: no newline is left, and nothing else changes.
   */
  lemma TextHtmlShape(kind: TextKind, content: string, style: string, width: string)
    ensures exists inner ::
      && TextHtml(kind, content, style, width) == RowCell(KindName(kind), style, width) + inner + RowCellEnd
      && '\n' !in inner
      && inner == Join(Split(content, '\n'), "<br>")
  {
    ReplaceAllIsJoinOfSplit(content, '\n', "<br>");
    var inner := ReplaceAll(content, '\n', "<br>");
    assert TextHtml(kind, content, style, width) == RowCell(KindName(kind), style, width) + inner + RowCellEnd;
  }

  function ListOpen(style: string, width: string): string {
    RowCell("content", style, width) + "<ul style=\"padding-left: 20px;\">"
  }

  const ListClose: string := "</ul>" + RowCellEnd

  function ListItem(item: string): string {
    "<li style=\"margin-bottom: 10px;\">" + item + "</li>"
  }

  /** One `<li>` per item, in order. */
  function ListItems(items: seq<string>): string {
    FlatMap(ListItem, items)
  }

  function ListHtml(items: seq<string>, style: string, width: string): string {
    ListOpen(style, width) + ListItems(items) + ListClose
  }

  /** An empty list leaves only the frame. */
  lemma EmptyListFrame(style: string, width: string)
    ensures ListHtml([], style, width) == ListOpen(style, width) + ListClose
  {
  }

  /** Each item appears verbatim in its own `<li>`, after the items before it. */
  lemma ListItemsVerbatim(items: seq<string>, i: int)
    requires 0 <= i < |items|
    ensures OccursAt(ListItems(items), ListItem(items[i]), |ListItems(items[..i])|)
  {
    FlatMapAt(ListItem, items, i);
    ContainsMiddle(ListItems(items[..i]), ListItem(items[i]), ListItems(items[i + 1..]));
  }

  /**
   * An image section: with the file present, the image inline as a data URI;
   * without it, the fallback text.
   */
  function ImageSectionHtml(image: ImageRef, style: string, width: string, fs: FileSystem): string {
    if image.src in fs then
      RowCell("content", style, width) + ImgTag(DataUri(fs[image.src]), image, "  ") + RowCellEnd
    else
      RowCell("content", style, width) + NotFound(image.alt) + RowCellEnd
  }

  /** A missing file gives the fallback text, and its rendering does not depend on the other files. */
  lemma ImageSectionMissing(image: ImageRef, style: string, width: string, fs: FileSystem)
    requires image.src !in fs
    ensures Contains(ImageSectionHtml(image, style, width, fs), NotFoundText(image.alt))
    ensures ImageSectionHtml(image, style, width, fs) == ImageSectionHtml(image, style, width, map[])
    ensures RefersToNoFile(style) && RefersToNoFile(width) && RefersToNoFile(image.alt) ==>
      RefersToNoFile(ImageSectionHtml(image, style, width, fs))
  {
    var cell := RowCell("content", style, width);
    NotFoundHoldsAlt(image.alt);
    ContainsInside(cell, NotFound(image.alt), NotFoundText(image.alt), 3, RowCellEnd);
    if RefersToNoFile(style) && RefersToNoFile(width) && RefersToNoFile(image.alt) {
      NoColonNoFile("content");
      RowCellNoFile("content", style, width);
      FallbackNoFile(cell, image.alt, RowCellEnd);
    }
  }

  /**
   * A present file is embedded as `src="data:image/jpeg;base64,<payload>"`,
   * and the payload decodes to exactly the file's bytes.
   */
  lemma ImageSectionEmbeds(image: ImageRef, style: string, width: string, fs: FileSystem)
    requires image.src in fs
    ensures exists payload ::
      && Contains(ImageSectionHtml(image, style, width, fs), ImgSrc(DataUriPrefix + payload))
      && Decode(payload) == Some(fs[image.src])
  {
    var payload := Encode(fs[image.src]);
    DecodeEncode(fs[image.src]);
    var cell, tag := RowCell("content", style, width), ImgTag(DataUri(fs[image.src]), image, "  ");
    ImgTagSource(DataUri(fs[image.src]), image, "  ");
    ContainsInside(cell, tag, ImgSrc(DataUri(fs[image.src])), 0, RowCellEnd);
    assert Contains(ImageSectionHtml(image, style, width, fs), ImgSrc(DataUriPrefix + payload));
  }

  /**
   * An image section always shows its alt text: in the `<img>` tag's `alt`
   * when the file exists, together with its width and height, and in the
   * fallback text otherwise.
   */
  lemma ImageSectionShowsAlt(image: ImageRef, style: string, width: string, fs: FileSystem)
    ensures Contains(ImageSectionHtml(image, style, width, fs), image.alt)
    ensures image.src in fs ==> Contains(ImageSectionHtml(image, style, width, fs), ImgLabel(image))
  {
    var cell := RowCell("content", style, width);
    if image.src in fs {
      var src := DataUri(fs[image.src]);
      var tag := ImgTag(src, image, "  ");
      ImgTagLabel(src, image, "  ");
      ContainsInside(cell, tag, ImgLabel(image), |ImgSrc(src)|, RowCellEnd);
      var rest := ImgStyle(image, "  ");
      assert tag == ImgSrc(src) + ImgLabel(image) + rest;
      OccursAtShift(ImgSrc(src), ImgLabel(image), image.alt, 6);
      OccursAtExtend(ImgSrc(src) + ImgLabel(image), image.alt, |ImgSrc(src)| + 6, rest);
      ContainsInside(cell, tag, image.alt, |ImgSrc(src)| + 6, RowCellEnd);
    } else {
      NotFoundHoldsAlt(image.alt);
      ContainsMiddle("Image not found: ", image.alt, "");
      assert NotFoundText(image.alt) == "Image not found: " + image.alt + "";
      OccursAtShift("<p>", NotFoundText(image.alt), image.alt, 17);
      assert NotFound(image.alt) == "<p>" + NotFoundText(image.alt) + "</p>";
      OccursAtExtend("<p>" + NotFoundText(image.alt), image.alt, 20, "</p>");
      ContainsInside(cell, NotFound(image.alt), image.alt, 20, RowCellEnd);
    }
  }

  // --------------------------------------------------------------- columns

  /** `<td class=".." style=".." width="..">`, the opening of an icon or image column. */
  function ColumnCell(cls: string, style: string, width: string): string {
    CellLead(cls) + CellAttributes(style, width)
  }

  /** `<td class=".."`, the start of a classed column cell. */
  function CellLead(cls: string): string {
    "<td class=\"" + cls + "\""
  }

  /** ` style=".." width="..">`, the attributes that close every column cell's opening tag. */
  function CellAttributes(style: string, width: string): string {
    " style=\"" + style + "\" width=\"" + width + "\">"
  }

  /** The column width: the `width` style entry, else `auto`. */
  function ColumnWidth(styles: StyleMap): (width: string)
    ensures !HasKey(styles, "width") ==> width == "auto"
    ensures HasKey(styles, "width") ==> ("width", width) in styles
  {
    Lookup(styles, "width", "auto")
  }

  /** An icon column: the image inline as a data URI, like an image section. */
  function IconColumnHtml(image: ImageRef, style: string, width: string, fs: FileSystem): string {
    if image.src in fs then
      ColumnCell("icon", style, width) + ImgTag(DataUri(fs[image.src]), image, " ") + "</td>"
    else
      ColumnCell("icon", style, width) + NotFound(image.alt) + "</td>"
  }

  function TextColumnHtml(content: string, style: string, width: string): string {
    "<td" + CellAttributes(style, width) + content + "</td>"
  }

  /**
   * An image column with its file present: a `cid:` reference to the
   * attachment registered under `ContentId(src)`; without it, the fallback.
   */
  function ImageColumnHtml(image: ImageRef, style: string, width: string, fs: FileSystem): string {
    if image.src in fs then
      ColumnCell("image", style, width) + ImgTag("cid:" + ContentId(image.src), image, " ") + "</td>"
    else
      ColumnCell("image", style, width) + NotFound(image.alt) + "</td>"
  }

  /** An image column never inlines the file: it refers to it by Content-ID, or falls back. */
  lemma ImageColumnReferences(image: ImageRef, style: string, width: string, fs: FileSystem)
    ensures image.src in fs ==> Contains(ImageColumnHtml(image, style, width, fs), "cid:" + ContentId(image.src))
    ensures image.src !in fs ==> Contains(ImageColumnHtml(image, style, width, fs), NotFoundText(image.alt))
    ensures image.src !in fs && RefersToNoFile(style) && RefersToNoFile(width) && RefersToNoFile(image.alt) ==>
      RefersToNoFile(ImageColumnHtml(image, style, width, fs))
  {
    var cell := ColumnCell("image", style, width);
    if image.src in fs {
      var cid := "cid:" + ContentId(image.src);
      var tag := ImgTag(cid, image, " ");
      ImgTagSource(cid, image, " ");
      ContainsInside(cell, tag, cid, 10, "</td>");
    } else {
      NotFoundHoldsAlt(image.alt);
      ContainsInside(cell, NotFound(image.alt), NotFoundText(image.alt), 3, "</td>");
      if RefersToNoFile(style) && RefersToNoFile(width) && RefersToNoFile(image.alt) {
        NoColonNoFile("image");
        ColumnCellNoFile("image", style, width);
        FallbackNoFile(cell, image.alt, "</td>");
      }
    }
  }

  /** An icon column with a missing file shows the fallback text; with the file, the data URI. */
  lemma IconColumnEmbeds(image: ImageRef, style: string, width: string, fs: FileSystem)
    ensures image.src in fs ==> Contains(IconColumnHtml(image, style, width, fs), ImgSrc(DataUri(fs[image.src])))
    ensures image.src !in fs ==> Contains(IconColumnHtml(image, style, width, fs), NotFoundText(image.alt))
    ensures image.src !in fs && RefersToNoFile(style) && RefersToNoFile(width) && RefersToNoFile(image.alt) ==>
      RefersToNoFile(IconColumnHtml(image, style, width, fs))
  {
    var cell := ColumnCell("icon", style, width);
    if image.src in fs {
      var tag := ImgTag(DataUri(fs[image.src]), image, " ");
      ImgTagSource(DataUri(fs[image.src]), image, " ");
      ContainsInside(cell, tag, ImgSrc(DataUri(fs[image.src])), 0, "</td>");
    } else {
      NotFoundHoldsAlt(image.alt);
      ContainsInside(cell, NotFound(image.alt), NotFoundText(image.alt), 3, "</td>");
      if RefersToNoFile(style) && RefersToNoFile(width) && RefersToNoFile(image.alt) {
        NoColonNoFile("icon");
        ColumnCellNoFile("icon", style, width);
        FallbackNoFile(cell, image.alt, "</td>");
      }
    }
  }

  /** The values a link button takes from the column's styles. */
  datatype ButtonLook = ButtonLook(background: string, textColor: string, fontSize: string, borderRadius: string, height: string)

  /**
   * The button's looks, with their defaults. The height slot is filled from
   * `background-button-color`: a `button-height` entry is looked up and then
   * overwritten, so it never reaches the button.
   */
  function ButtonLookOf(styles: StyleMap): (look: ButtonLook)
    ensures !HasKey(styles, "background-color-link") ==> look.background == "none"
    ensures !HasKey(styles, "color") ==> look.textColor == "#ffffff"
    ensures !HasKey(styles, "font-size") ==> look.fontSize == "16px"
    ensures !HasKey(styles, "border-radius") ==> look.borderRadius == "16px"
    ensures !HasKey(styles, "background-button-color") ==> look.height == "none"
    ensures HasKey(styles, "background-color-link") ==> ("background-color-link", look.background) in styles
    ensures HasKey(styles, "color") ==> ("color", look.textColor) in styles
    ensures HasKey(styles, "font-size") ==> ("font-size", look.fontSize) in styles
    ensures HasKey(styles, "border-radius") ==> ("border-radius", look.borderRadius) in styles
    ensures HasKey(styles, "background-button-color") ==> ("background-button-color", look.height) in styles
  {
    var _ := Lookup(styles, "button-height", "auto");
    ButtonLook(
      Lookup(styles, "background-color-link", "none"),
      Lookup(styles, "color", "#ffffff"),
      Lookup(styles, "font-size", "16px"),
      Lookup(styles, "border-radius", "16px"),
      Lookup(styles, "background-button-color", "none"))
  }

  /** Removing any `button-height` entry leaves every value of the button unchanged. */
  lemma ButtonHeightIgnored(styles: StyleMap)
    ensures ButtonLookOf(Without(styles, "button-height")) == ButtonLookOf(styles)
  {
    var w := Without(styles, "button-height");
    LookupWithout(styles, "button-height", "background-color-link", "none");
    LookupWithout(styles, "button-height", "color", "#ffffff");
    LookupWithout(styles, "button-height", "font-size", "16px");
    LookupWithout(styles, "button-height", "border-radius", "16px");
    LookupWithout(styles, "button-height", "background-button-color", "none");
  }

  /** A link column: a one-cell button table around an anchor. */
  function LinkColumnHtml(href: Option<string>, content: string, styles: StyleMap, style: string, width: string): string {
    var look := ButtonLookOf(styles);
    ButtonOpen(look, style, width) + Anchor(href.GetOr("#"), look.textColor, content) + ButtonClose
  }

  /** The text of the link column up to the anchor. */
  function ButtonOpen(look: ButtonLook, style: string, width: string): string {
    ButtonLead + CellAttributes(style, width) + ButtonTable + ButtonStyle(look) + "\n                        "
  }

  const ButtonLead: string := "\n        <td class=\"button-container\""

  const ButtonTable: string :=
    "\n            <table align=\"center\" cellpadding=\"0\" cellspacing=\"0\" border=\"0\">\n"
    + "                <tr>\n"
    + "                    <td class=\"button\" "

  /** The inner cell's style attribute, filled from the button's looks. */
  function ButtonStyle(look: ButtonLook): string {
    "style=\"background-color: " + look.background + "; border-radius: " + look.borderRadius
    + "; text-align: center; font-size: " + look.fontSize + "; height: " + look.height + "\">"
  }

  const ButtonClose: string :=
    "\n                    </td>\n                </tr>\n            </table>\n        </td>\n        "

  function Anchor(href: string, color: string, text: string): string {
    "<a href=\"" + href + "\" style=\"color: " + color
    + "; display: inline-block; padding: 10px 20px; text-decoration: none;\">" + text + "</a>"
  }

  /**
   * A link column holds an anchor to its href (`#` when absent) with its
   * text verbatim, coloured with the column's `color` (white by default),
   * right after the button's opening.
   */
  lemma LinkColumnAnchor(href: Option<string>, content: string, styles: StyleMap, style: string, width: string)
    ensures var look := ButtonLookOf(styles);
      OccursAt(LinkColumnHtml(href, content, styles, style, width),
               Anchor(href.GetOr("#"), look.textColor, content), |ButtonOpen(look, style, width)|)
  {
    var look := ButtonLookOf(styles);
    ContainsMiddle(ButtonOpen(look, style, width), Anchor(href.GetOr("#"), look.textColor, content), ButtonClose);
  }

  /**
   * The inner button cell carries the looks: background, radius, font size
   * and the height slot (filled from `background-button-color`), each with
   * its default, in the cell's `style` attribute.
   */
  lemma LinkButtonLook(href: Option<string>, content: string, styles: StyleMap, style: string, width: string)
    ensures var look := ButtonLookOf(styles);
      OccursAt(LinkColumnHtml(href, content, styles, style, width),
        "style=\"background-color: " + look.background + "; border-radius: " + look.borderRadius
        + "; text-align: center; font-size: " + look.fontSize + "; height: " + look.height + "\">",
        |ButtonLead + CellAttributes(style, width) + ButtonTable|)
  {
    var look := ButtonLookOf(styles);
    var lead := ButtonLead + CellAttributes(style, width) + ButtonTable;
    var anchor := Anchor(href.GetOr("#"), look.textColor, content);
    LinkColumnParts(look, style, width, anchor);
    ContainsMiddle(lead, ButtonStyle(look), "\n                        " + anchor + ButtonClose);
  }

  /** The link column cut at its cell attributes and at the button's style. */
  lemma LinkColumnParts(look: ButtonLook, style: string, width: string, anchor: string)
    ensures ButtonOpen(look, style, width) + anchor + ButtonClose
         == (ButtonLead + CellAttributes(style, width) + ButtonTable) + ButtonStyle(look) + ("\n                        " + anchor + ButtonClose)
    ensures ButtonOpen(look, style, width) + anchor + ButtonClose
         == ButtonLead + CellAttributes(style, width) + (ButtonTable + ButtonStyle(look) + "\n                        " + anchor + ButtonClose)
  {
    Regroup(ButtonLead, CellAttributes(style, width), ButtonTable, ButtonStyle(look), "\n                        ", anchor, ButtonClose);
  }

  /** Two ways of grouping seven pieces of text. */
  lemma Regroup(a: string, b: string, c: string, d: string, e: string, f: string, g: string)
    ensures a + b + c + d + e + f + g == (a + b + c) + d + (e + f + g)
    ensures a + b + c + d + e + f + g == a + b + (c + d + e + f + g)
  {
  }

  /** The fragment of one column; a column of unknown type contributes nothing. */
  function ColumnHtml(column: Column, fs: FileSystem): string {
    var style, width := FormatStyle(column.styles), ColumnWidth(column.styles);
    match column.body
    case IconColumn(image) => IconColumnHtml(image, style, width, fs)
    case TextColumn(content) => TextColumnHtml(content, style, width)
    case LinkColumn(href, content) => LinkColumnHtml(href, content, column.styles, style, width)
    case ImageColumn(image) => ImageColumnHtml(image, style, width, fs)
    case UnknownColumn(_) => ""
  }

  /** An image column is rendered by the image-column builder. */
  lemma ImageColumnBuilder(column: Column, fs: FileSystem)
    requires column.body.ImageColumn?
    ensures ColumnHtml(column, fs) == ImageColumnHtml(column.body.image, FormatStyle(column.styles), ColumnWidth(column.styles), fs)
  {
  }

  function ColumnRenderer(fs: FileSystem): Column -> string {
    column => ColumnHtml(column, fs)
  }

  /** A row's columns' fragments, in order. */
  function ColumnsHtml(columns: seq<Column>, fs: FileSystem): string {
    FlatMap(ColumnRenderer(fs), columns)
  }

  function RowOpen(row: Row): string {
    "<tr style=\"" + FormatStyle(row.styles) + "\">"
  }

  /** One `<tr>` per row, holding its columns' fragments in order. */
  function RowHtml(row: Row, fs: FileSystem): string {
    RowOpen(row) + ColumnsHtml(row.columns, fs) + "</tr>"
  }
  /**
   * A row's `<tr>` carries the row's whole style map, `width` included,
   * and closes with `</tr>`.
   */
  lemma RowStyled(row: Row, fs: FileSystem)
    ensures OccursAt(RowHtml(row, fs), "<tr style=\"" + FormatStyle(row.styles) + "\">", 0)
    ensures OccursAt(RowHtml(row, fs), "</tr>", |RowHtml(row, fs)| - 5)
  {
    Wrapped(RowOpen(row), ColumnsHtml(row.columns, fs), "</tr>");
  }

  /** What precedes ` style=".."` in a column's opening tag. */
  function ColumnLead(body: ColumnBody): string {
    match body
    case IconColumn(_) => CellLead("icon")
    case TextColumn(_) => "<td"
    case LinkColumn(_, _) => ButtonLead
    case ImageColumn(_) => CellLead("image")
    case UnknownColumn(_) => ""
  }

  /**
   * Every recognised column opens with its cell, whose `style` is the
   * column's whole style map, `width` included, and whose `width` is the
   * `width` style or `auto`.
   */
  lemma KnownColumnCell(column: Column, fs: FileSystem)
    requires !column.body.UnknownColumn?
    ensures OpensCell(ColumnHtml(column, fs), ColumnLead(column.body), FormatStyle(column.styles), ColumnWidth(column.styles))
  {
    var style, width := FormatStyle(column.styles), ColumnWidth(column.styles);
    var html := ColumnHtml(column, fs);
    if column.body.IconColumn? {
      assert html == IconColumnHtml(column.body.image, style, width, fs);
      IconCell(column.body.image, style, width, fs);
    } else if column.body.TextColumn? {
      assert html == TextColumnHtml(column.body.content, style, width);
      TextCell(column.body.content, style, width);
    } else if column.body.LinkColumn? {
      assert html == LinkColumnHtml(column.body.href, column.body.content, column.styles, style, width);
      LinkCell(column.body.href, column.body.content, column.styles, style, width);
    } else {
      assert html == ImageColumnHtml(column.body.image, style, width, fs);
      ImageCell(column.body.image, style, width, fs);
    }
  }

  /** `html` opens with `lead`, followed by ` style="{style}" width="{width}">`. */
  predicate OpensCell(html: string, lead: string, style: string, width: string) {
    OccursAt(html, lead, 0) && OccursAt(html, CellAttributes(style, width), |lead|)
  }

  lemma OpensCellOf(lead: string, style: string, width: string, rest: string)
    ensures OpensCell(lead + CellAttributes(style, width) + rest, lead, style, width)
  {
    Wrapped(lead, CellAttributes(style, width), rest);
    ContainsMiddle(lead, CellAttributes(style, width), rest);
  }

  lemma IconCell(image: ImageRef, style: string, width: string, fs: FileSystem)
    ensures OpensCell(IconColumnHtml(image, style, width, fs), CellLead("icon"), style, width)
  {
    var inner := if image.src in fs then ImgTag(DataUri(fs[image.src]), image, " ") else NotFound(image.alt);
    OpensCellOf(CellLead("icon"), style, width, inner + "</td>");
  }

  lemma TextCell(content: string, style: string, width: string)
    ensures OpensCell(TextColumnHtml(content, style, width), "<td", style, width)
  {
    OpensCellOf("<td", style, width, content + "</td>");
  }

  lemma LinkCell(href: Option<string>, content: string, styles: StyleMap, style: string, width: string)
    ensures OpensCell(LinkColumnHtml(href, content, styles, style, width), ButtonLead, style, width)
  {
    var look := ButtonLookOf(styles);
    var anchor := Anchor(href.GetOr("#"), look.textColor, content);
    LinkColumnParts(look, style, width, anchor);
    OpensCellOf(ButtonLead, style, width, ButtonTable + ButtonStyle(look) + "\n                        " + anchor + ButtonClose);
  }

  lemma ImageCell(image: ImageRef, style: string, width: string, fs: FileSystem)
    ensures OpensCell(ImageColumnHtml(image, style, width, fs), CellLead("image"), style, width)
  {
    var inner := if image.src in fs then ImgTag("cid:" + ContentId(image.src), image, " ") else NotFound(image.alt);
    OpensCellOf(CellLead("image"), style, width, inner + "</td>");
  }




  function RowRenderer(fs: FileSystem): Row -> string {
    row => RowHtml(row, fs)
  }

  function RowsHtml(rows: seq<Row>, fs: FileSystem): string {
    FlatMap(RowRenderer(fs), rows)
  }

  function BlockOpen(style: string, width: string): string {
    RowCell("content", style, width) + "<table width=\"100%\" cellpadding=\"0\" cellspacing=\"0\" border=\"0\">"
  }

  const BlockClose: string := "</table>" + RowCellEnd

  /** A block: a nested table with one row per configured row. */
  function BlockHtml(rows: seq<Row>, style: string, width: string, fs: FileSystem): string {
    BlockOpen(style, width) + RowsHtml(rows, fs) + BlockClose
  }

  predicate IsKnownColumn(column: Column) {
    !column.body.UnknownColumn?
  }

  /**
   * A column renders to something exactly when its `type` is one of the four
   * the row loop dispatches on; any other type yields nothing.
   */
  lemma ValidColumnsRender(column: Column, fs: FileSystem)
    requires WellTaggedColumn(column)
    ensures ColumnTypeName(column.body) in {Some("icon"), Some("text"), Some("link"), Some("image")} <==> ColumnHtml(column, fs) != ""
  {
  }

  /** Columns of unknown type contribute nothing: dropping them changes no output. */
  lemma UnknownColumnsIgnored(columns: seq<Column>, fs: FileSystem)
    ensures ColumnsHtml(Filter(IsKnownColumn, columns), fs) == ColumnsHtml(columns, fs)
  {
    FlatMapFilter(ColumnRenderer(fs), IsKnownColumn, columns);
  }

  /** Each column's fragment appears in its row in its place, after the columns before it. */
  lemma ColumnsInOrder(columns: seq<Column>, i: int, fs: FileSystem)
    requires 0 <= i < |columns|
    ensures OccursAt(ColumnsHtml(columns, fs), ColumnHtml(columns[i], fs), |ColumnsHtml(columns[..i], fs)|)
  {
    FlatMapAt(ColumnRenderer(fs), columns, i);
    ContainsMiddle(ColumnsHtml(columns[..i], fs), ColumnHtml(columns[i], fs), ColumnsHtml(columns[i + 1..], fs));
  }

  /** Each row's `<tr>` appears in the block in its place, after the rows before it. */
  lemma RowsInOrder(rows: seq<Row>, i: int, fs: FileSystem)
    requires 0 <= i < |rows|
    ensures OccursAt(RowsHtml(rows, fs), RowHtml(rows[i], fs), |RowsHtml(rows[..i], fs)|)
  {
    FlatMapAt(RowRenderer(fs), rows, i);
    ContainsMiddle(RowsHtml(rows[..i], fs), RowHtml(rows[i], fs), RowsHtml(rows[i + 1..], fs));
  }

  /**
   * A block starts with the section cell and the inner table's opening, ends
   * with their closing, and holds exactly its rows' fragments between them.
   */
  lemma BlockFrame(rows: seq<Row>, style: string, width: string, fs: FileSystem)
    ensures var html, open := BlockHtml(rows, style, width, fs), BlockOpen(style, width);
      && html[..|open|] == open
      && html[|html| - |BlockClose|..] == BlockClose
      && html[|open|..|html| - |BlockClose|] == RowsHtml(rows, fs)
  {
    Framing(BlockOpen(style, width), RowsHtml(rows, fs), BlockClose);
  }

  // ----------------------------------------------------------- registrations

  /** The `(cid, path)` entry an image column with an existing file registers. */
  function ColumnImages(column: Column, fs: FileSystem): seq<(string, string)> {
    if column.body.ImageColumn? && column.body.image.src in fs then
      [(ContentId(column.body.image.src), column.body.image.src)]
    else []
  }

  function ColumnImagesOf(fs: FileSystem): Column -> seq<(string, string)> {
    column => ColumnImages(column, fs)
  }

  function ColumnsImages(columns: seq<Column>, fs: FileSystem): seq<(string, string)> {
    FlatMap(ColumnImagesOf(fs), columns)
  }

  function RowImagesOf(fs: FileSystem): Row -> seq<(string, string)> {
    (row: Row) => ColumnsImages(row.columns, fs)
  }

  function RowsImages(rows: seq<Row>, fs: FileSystem): seq<(string, string)> {
    FlatMap(RowImagesOf(fs), rows)
  }

  /** The registrations a section makes: only blocks hold image columns. */
  function SectionImages(section: Section, fs: FileSystem): seq<(string, string)> {
    if section.body.BlockSection? then RowsImages(section.body.rows, fs) else []
  }

  function SectionImagesOf(fs: FileSystem): Section -> seq<(string, string)> {
    section => SectionImages(section, fs)
  }

  function SectionsImages(sections: seq<Section>, fs: FileSystem): seq<(string, string)> {
    FlatMap(SectionImagesOf(fs), sections)
  }

  /** The registry after recording the entries in order; a later entry overwrites an earlier one. */
  function Register(registry: map<string, string>, entries: seq<(string, string)>): (r: map<string, string>)
    ensures r.Keys == registry.Keys + set e | e in entries :: e.0
    decreases |entries|
  {
    if |entries| == 0 then registry
    else
      var init, last := entries[..|entries| - 1], entries[|entries| - 1];
      assert forall e :: e in entries <==> e in init || e == last;
      Register(registry, init)[last.0 := last.1]
  }

  lemma {:induction false} RegisterAppend(registry: map<string, string>, a: seq<(string, string)>, b: seq<(string, string)>)
    ensures Register(registry, a + b) == Register(Register(registry, a), b)
    decreases |b|
  {
    if |b| > 0 {
      assert (a + b)[..|a + b| - 1] == a + b[..|b| - 1];
      RegisterAppend(registry, a, b[..|b| - 1]);
    } else {
      assert a + b == a;
    }
  }

  /** Every value of the registry was recorded by an entry, or was there before. */
  lemma {:induction false} RegisterProvenance(registry: map<string, string>, entries: seq<(string, string)>)
    ensures forall cid :: cid in Register(registry, entries) ==>
      || (cid, Register(registry, entries)[cid]) in entries
      || (cid in registry && Register(registry, entries)[cid] == registry[cid])
    decreases |entries|
  {
    if |entries| > 0 {
      var init := entries[..|entries| - 1];
      RegisterProvenance(registry, init);
      assert forall e :: e in init ==> e in entries;
    }
  }

  /** The last entry recorded for an id is the one the registry keeps. */
  lemma {:induction false} RegisterLastWins(registry: map<string, string>, entries: seq<(string, string)>, i: int)
    requires 0 <= i < |entries|
    requires forall j :: i < j < |entries| ==> entries[j].0 != entries[i].0
    ensures entries[i].0 in Register(registry, entries)
    ensures Register(registry, entries)[entries[i].0] == entries[i].1
    decreases |entries|
  {
    if i < |entries| - 1 {
      var init := entries[..|entries| - 1];
      assert init[i] == entries[i];
      RegisterLastWins(registry, init, i);
    }
  }

  /** The step of a loop that records the entries of `xs[i]` after those of `xs[..i]`. */
  lemma RegisterStep<T>(registry: map<string, string>, f: T -> seq<(string, string)>, xs: seq<T>, i: int)
    requires 0 <= i < |xs|
    ensures Register(Register(registry, FlatMap(f, xs[..i])), f(xs[i])) == Register(registry, FlatMap(f, xs[..i + 1]))
  {
    FlatMapPrefix(f, xs, i);
    RegisterAppend(registry, FlatMap(f, xs[..i]), f(xs[i]));
  }

  /** An entry is a well-formed registration: its id is the Content-ID of its path, which exists. */
  predicate Registration(fs: FileSystem, cid: string, path: string) {
    cid == ContentId(path) && path in fs
  }

  /** Recording well-formed entries into a well-formed registry keeps it well-formed. */
  lemma {:induction false} RegisterKeepsWellFormed(fs: FileSystem, registry: map<string, string>, entries: seq<(string, string)>)
    requires forall cid :: cid in registry ==> Registration(fs, cid, registry[cid])
    requires WellFormedEntries(fs, entries)
    ensures forall cid :: cid in Register(registry, entries) ==> Registration(fs, cid, Register(registry, entries)[cid])
    decreases |entries|
  {
    if |entries| > 0 {
      RegisterKeepsWellFormed(fs, registry, entries[..|entries| - 1]);
    }
  }

  /** Every entry is a well-formed registration. */
  predicate WellFormedEntries(fs: FileSystem, entries: seq<(string, string)>) {
    forall i :: 0 <= i < |entries| ==> Registration(fs, entries[i].0, entries[i].1)
  }

  lemma WellFormedAppend(fs: FileSystem, a: seq<(string, string)>, b: seq<(string, string)>)
    requires WellFormedEntries(fs, a) && WellFormedEntries(fs, b)
    ensures WellFormedEntries(fs, a + b)
  {
    forall i | 0 <= i < |a + b|
      ensures Registration(fs, (a + b)[i].0, (a + b)[i].1)
    {
      if i >= |a| {
        assert (a + b)[i] == b[i - |a|];
      }
    }
  }

  lemma {:induction false} ColumnsImagesWellFormed(columns: seq<Column>, fs: FileSystem)
    ensures WellFormedEntries(fs, ColumnsImages(columns, fs))
    decreases |columns|
  {
    if |columns| > 0 {
      var init, last := columns[..|columns| - 1], columns[|columns| - 1];
      ColumnsImagesWellFormed(init, fs);
      WellFormedAppend(fs, ColumnsImages(init, fs), ColumnImages(last, fs));
    }
  }

  lemma {:induction false} RowsImagesWellFormed(rows: seq<Row>, fs: FileSystem)
    ensures WellFormedEntries(fs, RowsImages(rows, fs))
    decreases |rows|
  {
    if |rows| > 0 {
      var init, last := rows[..|rows| - 1], rows[|rows| - 1];
      RowsImagesWellFormed(init, fs);
      ColumnsImagesWellFormed(last.columns, fs);
      WellFormedAppend(fs, RowsImages(init, fs), ColumnsImages(last.columns, fs));
    }
  }

  lemma {:induction false} SectionsImagesWellFormed(sections: seq<Section>, fs: FileSystem)
    ensures WellFormedEntries(fs, SectionsImages(sections, fs))
    decreases |sections|
  {
    if |sections| > 0 {
      var init, last := sections[..|sections| - 1], sections[|sections| - 1];
      SectionsImagesWellFormed(init, fs);
      if last.body.BlockSection? {
        RowsImagesWellFormed(last.body.rows, fs);
      }
      WellFormedAppend(fs, SectionsImages(init, fs), SectionImages(last, fs));
    }
  }

  /** `path` is the `src` of an image column in a block of `sections`. */
  predicate ImageColumnIn(sections: seq<Section>, path: string) {
    exists i, j, k ::
      && 0 <= i < |sections| && sections[i].body.BlockSection?
      && 0 <= j < |sections[i].body.rows|
      && 0 <= k < |sections[i].body.rows[j].columns|
      && sections[i].body.rows[j].columns[k].body.ImageColumn?
      && sections[i].body.rows[j].columns[k].body.image.src == path
  }

  /** Every registration of a render names an image column of the document, under its Content-ID. */
  lemma RegisteredFromColumns(sections: seq<Section>, fs: FileSystem, e: (string, string))
    requires e in SectionsImages(sections, fs)
    ensures e.0 == ContentId(e.1) && ImageColumnIn(sections, e.1)
  {
    FlatMapMember(SectionImagesOf(fs), sections, e);
    var i :| 0 <= i < |sections| && e in SectionImagesOf(fs)(sections[i]);
    assert sections[i].body.BlockSection?;
    var rows := sections[i].body.rows;
    assert e in RowsImages(rows, fs);
    FlatMapMember(RowImagesOf(fs), rows, e);
    var j :| 0 <= j < |rows| && e in RowImagesOf(fs)(rows[j]);
    var columns := rows[j].columns;
    assert e in ColumnsImages(columns, fs);
    FlatMapMember(ColumnImagesOf(fs), columns, e);
    var k :| 0 <= k < |columns| && e in ColumnImagesOf(fs)(columns[k]);
    assert e in ColumnImages(columns[k], fs);
    assert columns[k].body.ImageColumn? && e == (ContentId(columns[k].body.image.src), columns[k].body.image.src);
    assert sections[i].body.rows[j].columns[k] == columns[k];
  }

  /** Every image column of the document whose file exists is among the registrations of a render. */
  lemma ColumnRegistered(sections: seq<Section>, fs: FileSystem, i: int, j: int, k: int)
    requires 0 <= i < |sections| && sections[i].body.BlockSection?
    requires 0 <= j < |sections[i].body.rows|
    requires 0 <= k < |sections[i].body.rows[j].columns|
    requires sections[i].body.rows[j].columns[k].body.ImageColumn?
    requires sections[i].body.rows[j].columns[k].body.image.src in fs
    ensures var path := sections[i].body.rows[j].columns[k].body.image.src;
      (ContentId(path), path) in SectionsImages(sections, fs)
  {
    var rows := sections[i].body.rows;
    var columns := rows[j].columns;
    var path := columns[k].body.image.src;
    FlatMapAt(ColumnImagesOf(fs), columns, k);
    assert (ContentId(path), path) in ColumnsImages(columns, fs);
    FlatMapAt(RowImagesOf(fs), rows, j);
    assert (ContentId(path), path) in RowsImages(rows, fs);
    FlatMapAt(SectionImagesOf(fs), sections, i);
  }

  // --------------------------------------------------------------- sections

  /** `validate_section`: whether a `type` is one the generator knows (it only warns otherwise). */
  function IsValidSectionType(sectionType: Option<string>): bool {
    sectionType in {Some("header"), Some("paragraph"), Some("footer"), Some("list"), Some("image"), Some("block")}
  }

  /** The fragment of one section; `width` defaults to `100%` and is left out of the style text. */
  function SectionHtml(section: Section, fs: FileSystem): string {
    var style, width := SectionStyle(section.styles), SectionWidth(section.styles);
    match section.body
    case TextSection(kind, content) => TextHtml(kind, content, style, width)
    case ListSection(items) => ListHtml(items, style, width)
    case ImageSection(image) => ImageSectionHtml(image, style, width, fs)
    case BlockSection(rows) => BlockHtml(rows, style, width, fs)
    case UnknownSection(_) => ""
  }

  /** The list and block cases of `SectionHtml`, the two a builder assembles piece by piece. */
  lemma SectionBuilder(section: Section, fs: FileSystem)
    ensures section.body.ListSection? ==>
      SectionHtml(section, fs) == ListHtml(section.body.items, SectionStyle(section.styles), SectionWidth(section.styles))
    ensures section.body.BlockSection? ==>
      SectionHtml(section, fs) == BlockHtml(section.body.rows, SectionStyle(section.styles), SectionWidth(section.styles), fs)
  {
  }

  /** The section width: the `width` style entry, else `100%`. */
  function SectionWidth(styles: StyleMap): (width: string)
    ensures !HasKey(styles, "width") ==> width == "100%"
    ensures HasKey(styles, "width") ==> ("width", width) in styles
  {
    Lookup(styles, "width", "100%")
  }

  /**
   * A section renders to something exactly when `validate_section` accepts
   * its type: a recognised section always yields a row, any other type none.
   */
  lemma ValidSectionsRender(section: Section, fs: FileSystem)
    requires WellTagged(section)
    ensures IsValidSectionType(SectionTypeName(section.body)) <==> SectionHtml(section, fs) != ""
  {
    if !section.body.UnknownSection? {
      KnownSectionRenders(section, fs);
    }
  }

  /** The class of a section's cell: the text kind for text sections, `content` for the others. */
  function SectionClass(body: SectionBody): string {
    if body.TextSection? then KindName(body.kind) else "content"
  }

  /** `html` is one table row opening with the cell `open` and closing with `</td></tr>`. */
  predicate IsRow(html: string, open: string) {
    OccursAt(html, open, 0) && OccursAt(html, RowCellEnd, |html| - |RowCellEnd|)
  }

  /**
   * Every recognised section is one table row: it opens with its cell
   * `<tr><td class=".." style=".." width="..">` and closes with `</td></tr>`.
   */
  lemma KnownSectionRenders(section: Section, fs: FileSystem)
    requires !section.body.UnknownSection?
    ensures IsRow(SectionHtml(section, fs), RowCell(SectionClass(section.body), SectionStyle(section.styles), SectionWidth(section.styles)))
  {
    var style, width := SectionStyle(section.styles), SectionWidth(section.styles);
    match section.body
    case TextSection(kind, content) => TextRow(kind, content, style, width);
    case ListSection(items) => ListRow(items, style, width);
    case ImageSection(image) => ImageRow(image, style, width, fs);
    case BlockSection(rows) => BlockRow(rows, style, width, fs);
  }

  lemma TextRow(kind: TextKind, content: string, style: string, width: string)
    ensures IsRow(TextHtml(kind, content, style, width), RowCell(KindName(kind), style, width))
  {
    Wrapped(RowCell(KindName(kind), style, width), ReplaceAll(content, '\n', "<br>"), RowCellEnd);
  }

  lemma ListRow(items: seq<string>, style: string, width: string)
    ensures IsRow(ListHtml(items, style, width), RowCell("content", style, width))
  {
    WrappedTwice(RowCell("content", style, width), "<ul style=\"padding-left: 20px;\">", ListItems(items), "</ul>", RowCellEnd);
  }

  lemma ImageRow(image: ImageRef, style: string, width: string, fs: FileSystem)
    ensures IsRow(ImageSectionHtml(image, style, width, fs), RowCell("content", style, width))
  {
    if image.src in fs {
      Wrapped(RowCell("content", style, width), ImgTag(DataUri(fs[image.src]), image, "  "), RowCellEnd);
    } else {
      Wrapped(RowCell("content", style, width), NotFound(image.alt), RowCellEnd);
    }
  }

  lemma BlockRow(rows: seq<Row>, style: string, width: string, fs: FileSystem)
    ensures IsRow(BlockHtml(rows, style, width, fs), RowCell("content", style, width))
  {
    var table := "<table width=\"100%\" cellpadding=\"0\" cellspacing=\"0\" border=\"0\">";
    WrappedTwice(RowCell("content", style, width), table, RowsHtml(rows, fs), "</table>", RowCellEnd);
  }

  function SectionRenderer(fs: FileSystem): Section -> string {
    section => SectionHtml(section, fs)
  }

  /** The sections' fragments, in document order. */
  function SectionsHtml(sections: seq<Section>, fs: FileSystem): string {
    FlatMap(SectionRenderer(fs), sections)
  }

  /** Each section's fragment appears in the e-mail body in document order. */
  lemma SectionsInOrder(sections: seq<Section>, i: int, fs: FileSystem)
    requires 0 <= i < |sections|
    ensures OccursAt(SectionsHtml(sections, fs), SectionHtml(sections[i], fs), |SectionsHtml(sections[..i], fs)|)
  {
    FlatMapAt(SectionRenderer(fs), sections, i);
    ContainsMiddle(SectionsHtml(sections[..i], fs), SectionHtml(sections[i], fs), SectionsHtml(sections[i + 1..], fs));
  }

  predicate IsKnownSection(section: Section) {
    !section.body.UnknownSection?
  }

  /** Sections of unknown type contribute nothing: dropping them changes no output. */
  lemma UnknownSectionsIgnored(sections: seq<Section>, fs: FileSystem)
    ensures SectionsHtml(Filter(IsKnownSection, sections), fs) == SectionsHtml(sections, fs)
  {
    FlatMapFilter(SectionRenderer(fs), IsKnownSection, sections);
  }

  // --------------------------------------------------------------- document

  const HeadBeforeTitle: string :=
    "<!DOCTYPE html>\n<html>\n<head>\n<meta charset=\"UTF-8\">\n"
    + "<meta http-equiv=\"Content-Type\" content=\"text/html; charset=UTF-8\">\n<title>"

  /** The template repeats `<title>{title}</title><style>`, so the title is written twice. */
  const HeadBetweenTitles: string := "</title>\n<style>\n<title>"

  const HeadBeforeWidth: string :=
    "</title>\n<style>\n"
    + "body { font-family: Arial, sans-serif; background-color: #f4f4f4; margin: 0; padding: 0; }\n"
    + ".container { max-width: "

  const HeadAfterWidth: string :=
    "; margin: 0 auto; background: #ffffff; border: 1px solid #dddddd; }\n"
    + "</style>\n<!--[if mso]>\n<style type=\"text/css\">\n"
    + "img { width: auto; max-width: 100%; height: auto; }\n</style>\n<![endif]-->\n</head>\n"
    + "<body style=\"background-color: #f4f4f4; margin: 0; padding: 0;\">\n"
    + "<table class=\"container\" align=\"center\" cellpadding=\"0\" cellspacing=\"0\" border=\"0\">\n"

  /** The opening of the document, with the title and the layout width filled in. */
  function HtmlStart(title: string, layoutWidth: string): string {
    HeadBeforeTitle + title + HeadBetweenTitles + title + HeadBeforeWidth + layoutWidth + HeadAfterWidth
  }

  const HtmlEnd: string := "\n</table>\n</body>\n</html>\n"

  function Title(doc: Document): string {
    doc.title.GetOr("Email")
  }

  /** `config.get("layout", {"width": "600px"})["width"]`. */
  function LayoutWidth(doc: Document): (r: Result<string>)
    ensures doc.layout.None? ==> r == Ok("600px")
    ensures doc.layout.Some? && doc.layout.value.width.Some? ==> r == Ok(doc.layout.value.width.value)
    ensures r.Err? <==> doc.layout.Some? && doc.layout.value.width.None?
    ensures r.Err? ==> r.error == MissingLayoutWidth
  {
    match doc.layout
    case None => Ok("600px")
    case Some(layout) =>
      match layout.width
      case None => Err(MissingLayoutWidth)
      case Some(width) => Ok(width)
  }

  /** The whole e-mail: every section's fragment in order, framed by the page. */
  function RenderDocument(doc: Document, fs: FileSystem): Result<string> {
    Framed(doc, SectionsHtml(doc.sections, fs))
  }

  /** `body` between the opening with title and width filled in and the closing, or the layout's error. */
  function Framed(doc: Document, body: string): Result<string> {
    match LayoutWidth(doc)
    case Err(e) => Err(e)
    case Ok(width) => Ok(Page(Title(doc), width, body))
  }

  /** The opening with title and width filled in, the body, the closing. */
  function Page(title: string, layoutWidth: string, body: string): string {
    HtmlStart(title, layoutWidth) + body + HtmlEnd
  }

  /** The registry a render leaves: the image columns' entries recorded into an empty one. */
  function DocumentImages(doc: Document, fs: FileSystem): map<string, string> {
    Register(map[], SectionsImages(doc.sections, fs))
  }

  /** Rendering fails exactly when the layout is given without a width. */
  lemma RenderFails(doc: Document, fs: FileSystem)
    ensures RenderDocument(doc, fs).Err? <==> doc.layout.Some? && doc.layout.value.width.None?
    ensures RenderDocument(doc, fs).Err? ==> RenderDocument(doc, fs).error == MissingLayoutWidth
  {
  }

  /**
   * A rendered document holds the title (default `Email`) verbatim twice:
   * right after the first `<title>` and again after the repeated
   * `</title><style><title>`, whatever the sections render to.
   */
  lemma RenderTitle(doc: Document, body: string)
    ensures Framed(doc, body).Ok? ==>
      && OccursAt(Framed(doc, body).value, Title(doc), FirstTitleOffset())
      && OccursAt(Framed(doc, body).value, Title(doc), SecondTitleOffset(Title(doc)))
    ensures doc.title.None? ==> Title(doc) == "Email"
  {
    if LayoutWidth(doc).Ok? {
      TitleInPage(Title(doc), LayoutWidth(doc).value, body);
    }
  }

  /**
   * A rendered document holds its layout width (default `600px`) verbatim in
   * the `max-width` of the container style, right after the second title.
   */
  lemma RenderLayoutWidth(doc: Document, body: string)
    ensures Framed(doc, body).Ok? ==>
      OccursAt(Framed(doc, body).value, LayoutWidth(doc).value, WidthOffset(Title(doc)))
  {
    if LayoutWidth(doc).Ok? {
      var t, w := Title(doc), LayoutWidth(doc).value;
      WidthInPage(t, w, body);
      assert Framed(doc, body) == Ok(Page(t, w, body));
    }
  }

  /** Where the first title starts in a page. */
  function FirstTitleOffset(): nat {
    |HeadBeforeTitle|
  }

  /** Where the second title starts in a page titled `t`. */
  function SecondTitleOffset(t: string): nat {
    |HeadBeforeTitle| + |t| + |HeadBetweenTitles|
  }

  /** Where the layout width starts in a page titled `t`. */
  function WidthOffset(t: string): nat {
    |HeadBeforeTitle| + |t| + |HeadBetweenTitles| + |t| + |HeadBeforeWidth|
  }

  lemma WidthInPage(t: string, w: string, body: string)
    ensures OccursAt(Page(t, w, body), w, WidthOffset(t))
  {
    assert Page(t, w, body) == HeadBeforeTitle + t + HeadBetweenTitles + t + HeadBeforeWidth + w + HeadAfterWidth + body + HtmlEnd;
    WidthSlot(HeadBeforeTitle, HeadBetweenTitles, HeadBeforeWidth, HeadAfterWidth, HtmlEnd, t, w, body);
  }

  /** The width slot of a page, whatever the template text around it. */
  lemma WidthSlot(a: string, b: string, c: string, d: string, e: string, t: string, w: string, body: string)
    ensures OccursAt(a + t + b + t + c + w + d + body + e, w, |a| + |t| + |b| + |t| + |c|)
  {
    var before := a + t + b + t + c;
    OccursAtEnd(before, w);
    ExtendThree(before + w, w, |before|, d, body, e);
  }

  lemma TitleInPage(t: string, w: string, body: string)
    ensures OccursAt(Page(t, w, body), t, FirstTitleOffset())
    ensures OccursAt(Page(t, w, body), t, SecondTitleOffset(t))
  {
    assert Page(t, w, body) == HeadBeforeTitle + t + HeadBetweenTitles + t + HeadBeforeWidth + w + HeadAfterWidth + body + HtmlEnd;
    TitleSlots(HeadBeforeTitle, HeadBetweenTitles, HeadBeforeWidth, HeadAfterWidth, HtmlEnd, t, w, body);
  }

  /** The two title slots of a page, whatever the template text around them. */
  lemma TitleSlots(a: string, b: string, c: string, d: string, e: string, t: string, w: string, body: string)
    ensures OccursAt(a + t + b + t + c + w + d + body + e, t, |a|)
    ensures OccursAt(a + t + b + t + c + w + d + body + e, t, |a| + |t| + |b|)
  {
    var first := a + t;
    var second := first + b + t;
    OccursAtEnd(a, t);
    OccursAtExtend(first, t, |a|, b);
    OccursAtExtend(first + b, t, |a|, t);
    OccursAtEnd(first + b, t);
    ExtendThree(second, t, |a|, c, w, d);
    ExtendThree(second, t, |first| + |b|, c, w, d);
    ExtendThree(second + c + w, t, |a|, d, body, e);
    ExtendThree(second + c + w, t, |first| + |b|, d, body, e);
  }

  lemma ExtendThree(hay: string, needle: string, at: int, x: string, y: string, z: string)
    requires OccursAt(hay, needle, at)
    ensures OccursAt(hay + x + y + z, needle, at)
  {
    OccursAtExtend(hay, needle, at, x);
    OccursAtExtend(hay + x, needle, at, y);
    OccursAtExtend(hay + x + y, needle, at, z);
  }

  /** Unknown sections add nothing to the document. */
  lemma RenderSkipsUnknownSections(doc: Document, fs: FileSystem)
    ensures RenderDocument(doc.(sections := Filter(IsKnownSection, doc.sections)), fs) == RenderDocument(doc, fs)
  {
    UnknownSectionsIgnored(doc.sections, fs);
  }

  /**
   * After a render every registry entry maps the Content-ID of an existing
   * file to that file, and every image column with an existing file has
   * its Content-ID registered.
   */
  lemma DocumentImagesWellFormed(doc: Document, fs: FileSystem)
    ensures forall cid :: cid in DocumentImages(doc, fs) ==> Registration(fs, cid, DocumentImages(doc, fs)[cid])
    ensures forall e :: e in SectionsImages(doc.sections, fs) ==> e.0 in DocumentImages(doc, fs)
    ensures forall cid :: cid in DocumentImages(doc, fs) ==> ImageColumnIn(doc.sections, DocumentImages(doc, fs)[cid])
    ensures forall path :: ImageColumnIn(doc.sections, path) && path in fs ==> ContentId(path) in DocumentImages(doc, fs)
  {
    SectionsImagesWellFormed(doc.sections, fs);
    RegisterKeepsWellFormed(fs, map[], SectionsImages(doc.sections, fs));
    RegisterProvenance(map[], SectionsImages(doc.sections, fs));
    forall cid | cid in DocumentImages(doc, fs)
      ensures ImageColumnIn(doc.sections, DocumentImages(doc, fs)[cid])
    {
      RegisteredFromColumns(doc.sections, fs, (cid, DocumentImages(doc, fs)[cid]));
    }
    forall path | ImageColumnIn(doc.sections, path) && path in fs
      ensures ContentId(path) in DocumentImages(doc, fs)
    {
      var i, j, k :|
        && 0 <= i < |doc.sections| && doc.sections[i].body.BlockSection?
        && 0 <= j < |doc.sections[i].body.rows|
        && 0 <= k < |doc.sections[i].body.rows[j].columns|
        && doc.sections[i].body.rows[j].columns[k].body.ImageColumn?
        && doc.sections[i].body.rows[j].columns[k].body.image.src == path;
      ColumnRegistered(doc.sections, fs, i, j, k);
    }
  }
}
