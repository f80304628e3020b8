/**
 * The generator object: it holds the parsed configuration and the registry
 * of inline images (Content-ID to file path) that image columns fill while
 * the HTML is built. Its builders append fragment after fragment to a
 * string, and each is proved to produce exactly the fragment that
 * `Fragments` specifies, and to leave exactly the registrations that
 * `Fragments` lists recorded in the registry.
 */
module Generator {
  import opened Options
  import opened Base64
  import opened Styles
  import opened Seqs
  import opened Document
  import opened Fragments

  /**
   * `encode_image_base64`: the file's bytes in Base64, or nothing when the
   * file does not exist. What it returns always decodes back to the file.
   */
  function EncodeImageBase64(fs: FileSystem, path: string): (encoded: Option<string>)
    ensures encoded.Some? <==> path in fs
    ensures encoded.Some? ==> Decode(encoded.value) == Some(fs[path])
  {
    if path in fs then
      DecodeEncode(fs[path]);
      Some(Encode(fs[path]))
    else None
  }

  /** The `src` every embedding builder writes is the prefix followed by this payload. */
  lemma EmbeddedPayload(fs: FileSystem, path: string)
    requires path in fs
    ensures DataUri(fs[path]) == DataUriPrefix + EncodeImageBase64(fs, path).value
  {
  }

  class EmailGenerator {
    /** The parsed configuration. */
    var config: Document
    /** Content-ID to path, for every image column rendered so far. */
    var inlineImages: map<string, string>

    /** A generator for `config`, with an empty registry. */
    constructor(config: Document)
      ensures this.config == config && inlineImages == map[]
    {
      this.config := config;
      inlineImages := map[];
    }

    /**
     * Registers `path` under its Content-ID and returns that id. A second
     * file with the same basename replaces the first.
     */
    method AddInlineImage(path: string) returns (cid: string)
      modifies this
      ensures cid == ContentId(path) && '.' !in cid
      ensures inlineImages == old(inlineImages)[cid := path]
      ensures config == old(config)
    {
      cid := ContentId(path);
      inlineImages := inlineImages[cid := path];
    }

    method GetInlineImages() returns (images: map<string, string>)
      ensures images == inlineImages
    {
      images := inlineImages;
    }

    /** An image column: registers its file when it exists and refers to it by Content-ID. */
    method BuildImageColumn(image: ImageRef, style: string, width: string, fs: FileSystem) returns (html: string)
      modifies this
      ensures html == ImageColumnHtml(image, style, width, fs)
      ensures image.src in fs ==> inlineImages == old(inlineImages)[ContentId(image.src) := image.src]
      ensures image.src !in fs ==> inlineImages == old(inlineImages)
      ensures config == old(config)
    {
      if image.src in fs {
        var cid := AddInlineImage(image.src);
        html := ColumnCell("image", style, width) + ImgTag("cid:" + cid, image, " ") + "</td>";
      } else {
        html := ColumnCell("image", style, width) + NotFound(image.alt) + "</td>";
      }
    }

    /** One column of a row; only an image column changes the registry. */
    method BuildColumn(column: Column, fs: FileSystem) returns (html: string)
      modifies this
      ensures html == ColumnHtml(column, fs)
      ensures inlineImages == Register(old(inlineImages), ColumnImages(column, fs))
      ensures config == old(config)
    {
      RegisterOne(inlineImages, ColumnImages(column, fs));
      match column.body {
        case ImageColumn(image) =>
          html := BuildImageColumn(image, FormatStyle(column.styles), ColumnWidth(column.styles), fs);
          ImageColumnBuilder(column, fs);
        case _ =>
          // icon, text and link columns only compute their fragment; unknown ones add nothing
          html := ColumnHtml(column, fs);
      }
    }

    /** One row of a block: `<tr>`, one fragment per column, `</tr>`. */
    method BuildRow(row: Row, fs: FileSystem) returns (html: string)
      modifies this
      ensures html == RowHtml(row, fs)
      ensures inlineImages == Register(old(inlineImages), ColumnsImages(row.columns, fs))
      ensures config == old(config)
    {
      html := RowOpen(row);
      var j := 0;
      while j < |row.columns|
        invariant 0 <= j <= |row.columns|
        invariant html == RowOpen(row) + ColumnsHtml(row.columns[..j], fs)
        invariant inlineImages == Register(old(inlineImages), ColumnsImages(row.columns[..j], fs))
        invariant config == old(config)
      {
        var column := BuildColumn(row.columns[j], fs);
        FlatMapExtend(RowOpen(row), ColumnRenderer(fs), row.columns, j);
        RegisterStep(old(inlineImages), ColumnImagesOf(fs), row.columns, j);
        html := html + column;
        j := j + 1;
      }
      assert row.columns[..j] == row.columns;
      html := html + "</tr>";
    }

    /** A block section: a nested table with one row per configured row. */
    method BuildBlockSection(rows: seq<Row>, style: string, width: string, fs: FileSystem) returns (html: string)
      modifies this
      ensures html == BlockHtml(rows, style, width, fs)
      ensures inlineImages == Register(old(inlineImages), RowsImages(rows, fs))
      ensures config == old(config)
    {
      html := BlockOpen(style, width);
      var i := 0;
      while i < |rows|
        invariant 0 <= i <= |rows|
        invariant html == BlockOpen(style, width) + RowsHtml(rows[..i], fs)
        invariant inlineImages == Register(old(inlineImages), RowsImages(rows[..i], fs))
        invariant config == old(config)
      {
        var row := BuildRow(rows[i], fs);
        FlatMapExtend(BlockOpen(style, width), RowRenderer(fs), rows, i);
        RegisterStep(old(inlineImages), RowImagesOf(fs), rows, i);
        html := html + row;
        i := i + 1;
      }
      assert rows[..i] == rows;
      html := html + BlockClose;
    }

    /**
     * `build_section`: the fragment of one section, registering the image
     * columns of a block on the way.
     */
    method BuildSection(section: Section, fs: FileSystem) returns (html: string)
      modifies this
      ensures html == SectionHtml(section, fs)
      ensures inlineImages == Register(old(inlineImages), SectionImages(section, fs))
      ensures config == old(config)
    {
      var style, width := SectionStyle(section.styles), SectionWidth(section.styles);
      SectionBuilder(section, fs);
      match section.body {
        case ListSection(items) =>
          html := AppendItems(ListOpen(style, width), items);
          html := html + ListClose;
        case BlockSection(rows) =>
          html := BuildBlockSection(rows, style, width, fs);
        case _ =>
          // text, image and unknown sections only compute their fragment
          html := SectionHtml(section, fs);
      }
    }

    /** The loop of a list section: one `<li>` per item appended to `html`, in order. */
    static method AppendItems(html0: string, items: seq<string>) returns (html: string)
      ensures html == html0 + ListItems(items)
    {
      html := html0;
      var k := 0;
      while k < |items|
        invariant 0 <= k <= |items|
        invariant html == html0 + ListItems(items[..k])
      {
        FlatMapExtend(html0, ListItem, items, k);
        html := html + ListItem(items[k]);
        k := k + 1;
      }
      assert items[..k] == items;
    }

    /**
     * `generate_html`: the whole e-mail, or the error a layout without
     * `width` raises before any section is built. The registry is emptied
     * first, so afterwards it holds exactly this render's registrations.
     */
    method GenerateHtml(fs: FileSystem) returns (result: Result<string>)
      modifies this
      ensures result == RenderDocument(config, fs)
      ensures result.Ok? ==> inlineImages == DocumentImages(config, fs)
      ensures result.Err? ==> inlineImages == map[]
      ensures config == old(config)
    {
      inlineImages := map[];
      var layoutWidth := LayoutWidth(config);
      if layoutWidth.Err? {
        return Err(layoutWidth.error);
      }
      var html := HtmlStart(Title(config), layoutWidth.value);
      html := AppendSections(html, fs);
      html := html + HtmlEnd;
      result := Ok(html);
    }

    /** The loop of `generate_html`: each section's fragment appended to `html`, in order. */
    method AppendSections(html0: string, fs: FileSystem) returns (html: string)
      modifies this
      ensures html == html0 + SectionsHtml(config.sections, fs)
      ensures inlineImages == Register(old(inlineImages), SectionsImages(config.sections, fs))
      ensures config == old(config)
    {
      html := html0;
      var sections := config.sections;
      var i := 0;
      while i < |sections|
        invariant 0 <= i <= |sections|
        invariant config == old(config) && sections == config.sections
        invariant html == html0 + SectionsHtml(sections[..i], fs)
        invariant inlineImages == Register(old(inlineImages), SectionsImages(sections[..i], fs))
      {
        var fragment := BuildSection(sections[i], fs);
        FlatMapExtend(html0, SectionRenderer(fs), sections, i);
        RegisterStep(old(inlineImages), SectionImagesOf(fs), sections, i);
        html := html + fragment;
        i := i + 1;
      }
      assert sections[..i] == sections;
    }
  }

  /** Registering a list of at most one entry is a single map update. */
  lemma RegisterOne(registry: map<string, string>, entries: seq<(string, string)>)
    requires |entries| <= 1
    ensures |entries| == 0 ==> Register(registry, entries) == registry
    ensures |entries| == 1 ==> Register(registry, entries) == registry[entries[0].0 := entries[0].1]
  {
    if |entries| == 1 {
      assert entries[..0] == [];
    }
  }

  /**
   * `self.inline_images[cid] = path` for each entry, on an object whose
   * registry may never have been created (`None`): the first entry then
   * fails, and with no entries the missing registry is never touched.
   */
  function RegisterAsWritten(registry: Option<map<string, string>>, entries: seq<(string, string)>): (r: Result<Option<map<string, string>>>)
    ensures r.Err? <==> registry.None? && |entries| > 0
    ensures r.Err? ==> r.error == MissingInlineRegistry
    ensures r.Ok? && registry.Some? ==> r.value == Some(Register(registry.value, entries))
  {
    if |entries| == 0 then Ok(registry)
    else
      match registry
      case None => Err(MissingInlineRegistry)
      case Some(images) => Ok(Some(Register(images, entries)))
  }

  /**
   * `generate_html` as the constructor actually leaves the object: the
   * registry is never created, so the first image column whose file exists
   * fails when it registers its Content-ID, and nothing is produced. It
   * agrees with the corrected generator on every document without such a
   * column.
   */
  function GenerateHtmlAsWritten(doc: Document, fs: FileSystem): (result: Result<string>)
    ensures result.Ok? ==> result == RenderDocument(doc, fs) && SectionsImages(doc.sections, fs) == []
    ensures SectionsImages(doc.sections, fs) == [] ==> result == RenderDocument(doc, fs)
    ensures RenderDocument(doc, fs).Err? ==> result == RenderDocument(doc, fs)
  {
    match RenderDocument(doc, fs)
    case Err(e) => Err(e)
    case Ok(html) =>
      match RegisterAsWritten(None, SectionsImages(doc.sections, fs))
      case Err(e) => Err(e)
      case Ok(_) => Ok(html)
  }

  /** A document of one block holding one row with one image column. */
  function ImageColumnDocument(image: ImageRef): Document {
    Document(None, None, [Section(BlockSection([Row([], [Column(ImageColumn(image), [])])]), [])])
  }

  /**
   * The defect, for every such document whose image exists: as written it
   * fails, while the corrected generator renders it and registers the image.
   */
  lemma RegistryDefect(image: ImageRef, fs: FileSystem)
    requires image.src in fs
    ensures GenerateHtmlAsWritten(ImageColumnDocument(image), fs) == Err(MissingInlineRegistry)
    ensures RenderDocument(ImageColumnDocument(image), fs).Ok?
    ensures DocumentImages(ImageColumnDocument(image), fs) == map[ContentId(image.src) := image.src]
  {
    ImageColumnDocumentImages(image, fs);
    RegisterOne(map[], [(ContentId(image.src), image.src)]);
  }

  lemma ImageColumnDocumentImages(image: ImageRef, fs: FileSystem)
    requires image.src in fs
    ensures SectionsImages(ImageColumnDocument(image).sections, fs) == [(ContentId(image.src), image.src)]
  {
    var section := ImageColumnDocument(image).sections[0];
    var row := section.body.rows[0];
    FlatMapSingle(ColumnImagesOf(fs), row.columns[0]);
    FlatMapSingle(RowImagesOf(fs), row);
    FlatMapSingle(SectionImagesOf(fs), section);
  }
}
