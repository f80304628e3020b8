/**
 * The parsed configuration the generator renders: a title, an optional
 * layout, and an ordered list of typed sections. A key the configuration may
 * leave out is an `Option` where its default differs from an empty value;
 * `content`, `alt`, `src` and `items` default to the empty string or list and
 * are plain values.
 */
module Document {
  import opened Options
  import opened Styles
  import opened Base64

  /**
   * The image files that exist, with their bytes. The empty path never
   * names an existing file, which is what a missing `src` falls back to.
   */
  type FileSystem = fs: map<string, seq<byte>> | "" !in fs witness map[]

  /** The three section types that render as one text cell. */
  datatype TextKind = Header | Paragraph | Footer

  /** The fields an image section, icon column and image column share. */
  datatype ImageRef = ImageRef(src: string, alt: string, width: Option<string>, height: Option<string>)

  datatype SectionBody =
    | TextSection(kind: TextKind, content: string)
    | ListSection(items: seq<string>)
    | ImageSection(image: ImageRef)
    | BlockSection(rows: seq<Row>)
      /** Any other `type` value, or none at all: it renders to nothing. */
    | UnknownSection(tag: Option<string>)

  datatype Section = Section(body: SectionBody, styles: StyleMap)

  datatype Row = Row(styles: StyleMap, columns: seq<Column>)

  datatype ColumnBody =
    | IconColumn(image: ImageRef)
    | TextColumn(content: string)
    | LinkColumn(href: Option<string>, content: string)
    | ImageColumn(image: ImageRef)
      /** Any other `type` value, or none at all: it contributes nothing. */
    | UnknownColumn(tag: Option<string>)

  datatype Column = Column(body: ColumnBody, styles: StyleMap)

  /** The `layout` entry; present without `width` it makes rendering fail. */
  datatype Layout = Layout(width: Option<string>)

  datatype Document = Document(title: Option<string>, layout: Option<Layout>, sections: seq<Section>)

  datatype RenderError =
      /** `layout` is present but has no `width` key. */
    | MissingLayoutWidth
      /** The inline-image registry was read before it was ever created. */
    | MissingInlineRegistry

  datatype Result<T> = Ok(value: T) | Err(error: RenderError)

  /** The `type` string a section carries. */
  function SectionTypeName(body: SectionBody): Option<string> {
    match body
    case TextSection(kind, _) => Some(KindName(kind))
    case ListSection(_) => Some("list")
    case ImageSection(_) => Some("image")
    case BlockSection(_) => Some("block")
    case UnknownSection(tag) => tag
  }

  function KindName(kind: TextKind): string {
    match kind
    case Header => "header"
    case Paragraph => "paragraph"
    case Footer => "footer"
  }

  function ColumnTypeName(body: ColumnBody): Option<string> {
    match body
    case IconColumn(_) => Some("icon")
    case TextColumn(_) => Some("text")
    case LinkColumn(_, _) => Some("link")
    case ImageColumn(_) => Some("image")
    case UnknownColumn(tag) => tag
  }

  /** The tag of an unknown section is none of the recognised ones. */
  predicate WellTagged(section: Section) {
    section.body.UnknownSection? ==>
      section.body.tag !in {Some("header"), Some("paragraph"), Some("footer"), Some("list"), Some("image"), Some("block")}
  }

  /** The tag of an unknown column is none of the recognised ones. */
  predicate WellTaggedColumn(column: Column) {
    column.body.UnknownColumn? ==>
      column.body.tag !in {Some("icon"), Some("text"), Some("link"), Some("image")}
  }
}
