/** Option and Result, used for lookups and for the source's fatal exits. */
module Wrappers {
  datatype Option<+T> = None | Some(value: T)

  datatype Result<+T, +E> = Ok(value: T) | Err(error: E)
}

/**
 * Record model: package identities, dependencies, the binary, source and
 * status records, and the paragraph view of a file.
 *
 * The paragraph parser and the record constructors are collaborators of the
 * installer core. A `Paragraph` here holds the fields those constructors read;
 * a file's `Content` is either paragraph text (what the parser accepts) or
 * line-oriented text (a listfile, or anything the parser rejects).
 */
module Records {
  import opened Wrappers

  type Triplet = string

  /** The database key: a package name built for one target triplet. */
  datatype PackageSpec = PackageSpec(name: string, triplet: Triplet)

  /** `name:triplet`, the form shown to users. */
  function DisplayName(spec: PackageSpec): string {
    spec.name + ":" + spec.triplet
  }

  /** `name_triplet`, the file-name-safe form that names the listfile. */
  function FullStem(spec: PackageSpec): string {
    spec.name + "_" + spec.triplet
  }

  datatype Want = Install | Purge

  datatype InstallState = NotInstalled | HalfInstalled | Installed

  /** A declared dependency; a non-empty qualifier restricts it to some triplets. */
  datatype Dependency = Dependency(name: string, qualifier: string)

  /** A built package: its identity and the names of its dependencies. */
  datatype BinaryParagraph = BinaryParagraph(spec: PackageSpec, depends: seq<string>)

  /** A port's description: its name and its possibly qualified dependencies. */
  datatype SourceParagraph = SourceParagraph(name: string, depends: seq<Dependency>)

  /** The unit of durable truth about one package. */
  datatype StatusParagraph = StatusParagraph(package: BinaryParagraph, want: Want, state: InstallState)

  /** One stanza of a control or status file, as the record constructors see it. */
  datatype Paragraph = Paragraph(name: string, triplet: Triplet, depends: seq<Dependency>, want: Want, state: InstallState)

  datatype Content = Stanzas(paragraphs: seq<Paragraph>) | Text(lines: seq<string>)

  datatype ParseError = ParseError

  /** The paragraph parser: paragraph text parses, any other text is a parse error. */
  function ParseParagraphs(c: Content): (r: Result<seq<Paragraph>, ParseError>)
    ensures r.Ok? <==> c.Stanzas?
    ensures r.Ok? ==> r.value == c.paragraphs
  {
    match c
    case Stanzas(ps) => Ok(ps)
    case Text(_) => Err(ParseError)
  }

  /** The lines of a line-oriented file; a paragraph file is never read line by line. */
  function ReadLines(c: Content): seq<string> {
    match c
    case Text(ls) => ls
    case Stanzas(_) => []
  }

  function Names(ds: seq<Dependency>): (r: seq<string>)
    ensures |r| == |ds| && forall i :: 0 <= i < |ds| ==> r[i] == ds[i].name
  {
    seq(|ds|, i requires 0 <= i < |ds| => ds[i].name)
  }

  function Unqualified(ns: seq<string>): (r: seq<Dependency>)
    ensures |r| == |ns| && forall i :: 0 <= i < |ns| ==> r[i] == Dependency(ns[i], "")
  {
    seq(|ns|, i requires 0 <= i < |ns| => Dependency(ns[i], ""))
  }

  /** BinaryParagraph(paragraph): dependency names are kept verbatim and in order. */
  function BinaryOf(p: Paragraph): BinaryParagraph {
    BinaryParagraph(PackageSpec(p.name, p.triplet), Names(p.depends))
  }

  /** SourceParagraph(paragraph). */
  function SourceOf(p: Paragraph): SourceParagraph {
    SourceParagraph(p.name, p.depends)
  }

  /** StatusParagraph(paragraph). */
  function StatusOf(p: Paragraph): StatusParagraph {
    StatusParagraph(BinaryOf(p), p.want, p.state)
  }

  /** The serialisation of one status record; reading it back gives the record. */
  function ToParagraph(s: StatusParagraph): (p: Paragraph)
    ensures StatusOf(p) == s
  {
    var p := Paragraph(s.package.spec.name, s.package.spec.triplet, Unqualified(s.package.depends), s.want, s.state);
    assert Names(p.depends) == s.package.depends;
    p
  }

  /** Every paragraph of a file read as a status record, in file order. */
  function StatusRecords(ps: seq<Paragraph>): (r: seq<StatusParagraph>)
    ensures |r| == |ps| && forall i :: 0 <= i < |ps| ==> r[i] == StatusOf(ps[i])
  {
    seq(|ps|, i requires 0 <= i < |ps| => StatusOf(ps[i]))
  }

  /** The text written by `<<` for a sequence of status records, one stanza each. */
  function Serialize(db: seq<StatusParagraph>): (c: Content)
    ensures ParseParagraphs(c).Ok?
    ensures StatusRecords(ParseParagraphs(c).value) == db
  {
    var c := Stanzas(seq(|db|, i requires 0 <= i < |db| => ToParagraph(db[i])));
    assert StatusRecords(c.paragraphs) == db;
    c
  }
}
