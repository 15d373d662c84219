/**
 * Dependency lookup: the dependencies of a package are read from its staged
 * CONTROL file when it exists, and otherwise from its port's CONTROL file,
 * filtered for the target triplet.
 *
 * The two files are inputs (`None` when the file cannot be read), and the
 * triplet filter is a parameter: it is defined outside this core.
 */
module Dependencies {
  import opened Wrappers
  import opened Records

  /** Which CONTROL file a failure refers to. */
  datatype ControlSource = StagedControl | PortControl

  datatype LookupError =
    | InvalidControlFile(source: ControlSource)
    | PackageNotFound(spec: PackageSpec)

  type TripletFilter = (seq<Dependency>, Triplet) -> seq<string>

  /** The paragraphs of a CONTROL file; a parse error counts as no paragraph. */
  function ControlParagraphs(c: Content): (r: seq<Paragraph>)
    ensures ParseParagraphs(c).Err? ==> r == []
    ensures ParseParagraphs(c).Ok? ==> r == ParseParagraphs(c).value
  {
    match ParseParagraphs(c)
    case Ok(ps) => ps
    case Err(_) => []
  }

  /**
   * get_unmet_package_build_dependencies: the port's CONTROL file must hold
   * exactly one paragraph, whose dependencies are filtered for the triplet;
   * without the file the package is unknown.
   */
  function UnmetBuildDependencies(port: Option<Content>, spec: PackageSpec, filter: TripletFilter): (r: Result<seq<string>, LookupError>)
    ensures port.None? <==> r == Err(PackageNotFound(spec))
    ensures port.Some? ==> (r.Err? <==> |ControlParagraphs(port.value)| != 1)
    ensures r.Err? && port.Some? ==> r.error == InvalidControlFile(PortControl)
    ensures r.Ok? ==> r.value == filter(SourceOf(ControlParagraphs(port.value)[0]).depends, spec.triplet)
  {
    match port
    case None => Err(PackageNotFound(spec))
    case Some(c) =>
      var ps := ControlParagraphs(c);
      if |ps| != 1 then Err(InvalidControlFile(PortControl))
      else Ok(filter(SourceOf(ps[0]).depends, spec.triplet))
  }

  /**
   * get_unmet_package_dependencies: a staged CONTROL file must hold exactly
   * one paragraph, whose dependency names are returned verbatim and in
   * order; without it the port's CONTROL file decides.
   */
  function UnmetDependencies(staged: Option<Content>, port: Option<Content>, spec: PackageSpec, filter: TripletFilter): (r: Result<seq<string>, LookupError>)
    ensures staged.Some? ==> (r.Err? <==> |ControlParagraphs(staged.value)| != 1)
    ensures staged.Some? && r.Err? ==> r.error == InvalidControlFile(StagedControl)
    ensures staged.Some? && r.Ok? ==>
      var p := ControlParagraphs(staged.value)[0];
      |r.value| == |p.depends| && forall i :: 0 <= i < |p.depends| ==> r.value[i] == p.depends[i].name
    ensures staged.None? ==> r == UnmetBuildDependencies(port, spec, filter)
  {
    match staged
    case Some(c) =>
      var ps := ControlParagraphs(c);
      if |ps| != 1 then Err(InvalidControlFile(StagedControl))
      else Ok(BinaryOf(ps[0]).depends)
    case None => UnmetBuildDependencies(port, spec, filter)
  }

  /** A staged CONTROL file decides alone: the port file and the filter are not consulted. */
  lemma StagedControlDecides(c: Content, port1: Option<Content>, port2: Option<Content>, spec: PackageSpec, f1: TripletFilter, f2: TripletFilter)
    ensures UnmetDependencies(Some(c), port1, spec, f1) == UnmetDependencies(Some(c), port2, spec, f2)
  {
    var r1 := UnmetDependencies(Some(c), port1, spec, f1);
    var r2 := UnmetDependencies(Some(c), port2, spec, f2);
    if r1.Ok? {
      assert r1.value == r2.value;
    }
  }

  /** A package is only unknown when neither CONTROL file can be read. */
  lemma NotFoundOnlyWithoutControlFiles(staged: Option<Content>, port: Option<Content>, spec: PackageSpec, filter: TripletFilter)
    ensures UnmetDependencies(staged, port, spec, filter) == Err(PackageNotFound(spec)) <==> staged.None? && port.None?
  {
  }
}
