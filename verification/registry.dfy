/**
 * The capability registry: the class names registered as markers and as
 * markables, and for each markable class the marks it declares with the
 * allowed-markers policy of each.
 */
module Registry {
  import opened Seqs
  import opened Names

  /** Who may apply a mark: every registered marker, or an explicit list of marker names. */
  datatype Policy = AllMarkers | Only(names: seq<string>)

  datatype Registry = Registry(
    markers: seq<TypeName>,                       // registered marker class names, in order
    markables: seq<TypeName>,                     // registered markable class names, in order
    marks: map<TypeName, map<Mark, Policy>>,      // each markable class's declared marks
    markerNames: map<TypeName, string>            // each marker class's `marker_name`
  )

  /** Whether a policy lets the marker with the given (downcased) name through. */
  predicate Permits(p: Policy, markerName: string)
  {
    p.AllMarkers? || markerName in p.names
  }

  /** The marks a class declares; a class that never declared any has none. */
  function MarksFor(reg: Registry, cls: TypeName): map<Mark, Policy>
  {
    if cls in reg.marks then reg.marks[cls] else map[]
  }

  /**
   * What registration through `acts_as_marker` and `markable_as` keeps true:
   * no class is listed twice, exactly the markable classes carry a marks
   * table, and every marker class's name is its downcased class name.
   */
  ghost predicate Valid(reg: Registry)
  {
    && NoDup(reg.markers)
    && NoDup(reg.markables)
    && (forall c :: c in reg.marks <==> c in reg.markables)
    && (forall c :: c in reg.markerNames <==> c in reg.markers)
    && (forall c :: c in reg.markerNames ==> reg.markerNames[c] == Downcase(c))
  }

  /** `Markable.add_marker`: list the class name once among the markers. */
  function AddMarker(reg: Registry, cls: TypeName): (r: Registry)
    ensures cls in r.markers
    ensures forall c :: c in r.markers <==> c in reg.markers || c == cls
    ensures reg.markers <= r.markers
    ensures cls in reg.markers ==> r == reg
    ensures NoDup(reg.markers) ==> NoDup(r.markers)
    ensures r.markables == reg.markables && r.marks == reg.marks && r.markerNames == reg.markerNames
  {
    reg.(markers := PushUnlessIncluded(reg.markers, cls))
  }

  /** `Markable.add_markable`: list the class name once among the markables. */
  function AddMarkable(reg: Registry, cls: TypeName): (r: Registry)
    ensures cls in r.markables
    ensures forall c :: c in r.markables <==> c in reg.markables || c == cls
    ensures reg.markables <= r.markables
    ensures cls in reg.markables ==> r == reg
    ensures NoDup(reg.markables) ==> NoDup(r.markables)
    ensures r.markers == reg.markers && r.marks == reg.marks && r.markerNames == reg.markerNames
  {
    reg.(markables := PushUnlessIncluded(reg.markables, cls))
  }

  /** Registering a class twice leaves both lists as after the first time. */
  lemma RegisterTwice(reg: Registry, cls: TypeName)
    ensures AddMarker(AddMarker(reg, cls), cls) == AddMarker(reg, cls)
    ensures AddMarkable(AddMarkable(reg, cls), cls) == AddMarkable(reg, cls)
  {
  }

  /**
   * `markable_as(*marks, by: ...)` on class `cls`. An empty `by` is Ruby's
   * absent option: the marks get the unrestricted policy. A non-empty `by`
   * becomes an explicit list, stored exactly as written.
   */
  function MarkableAs(reg: Registry, cls: TypeName, marks: seq<Mark>, allowed: seq<string>): (r: Registry)
    ensures cls in r.markables && cls in r.marks
    ensures forall c :: c in r.markables <==> c in reg.markables || c == cls
    ensures reg.markables <= r.markables
    ensures r.marks[cls].Keys == MarksFor(reg, cls).Keys + set m | m in marks
    ensures |allowed| == 0 ==> forall m :: m in marks ==> r.marks[cls][m] == AllMarkers
    ensures |allowed| > 0 ==> forall m :: m in marks ==> r.marks[cls][m] == Only(allowed)
    ensures forall m :: m in MarksFor(reg, cls) && m !in marks ==> r.marks[cls][m] == MarksFor(reg, cls)[m]
    ensures forall c :: c != cls ==> MarksFor(r, c) == MarksFor(reg, c)
    ensures r.markers == reg.markers && r.markerNames == reg.markerNames
    ensures Valid(reg) ==> Valid(r)
  {
    var policy := if |allowed| == 0 then AllMarkers else Only(allowed);
    var declared := MarksFor(reg, cls) + map m | m in marks :: policy;
    AddMarkable(reg.(marks := reg.marks[cls := declared]), cls)
  }

  /**
   * `acts_as_marker` on class `cls`: its marker name becomes the downcased
   * class name, and the class name is registered as a marker.
   */
  function ActsAsMarker(reg: Registry, cls: TypeName): (r: Registry)
    ensures cls in r.markers && cls in r.markerNames
    ensures r.markerNames[cls] == Downcase(cls)
    ensures forall c :: c in r.markers <==> c in reg.markers || c == cls
    ensures reg.markers <= r.markers
    ensures forall c :: c != cls && c in reg.markerNames ==> c in r.markerNames && r.markerNames[c] == reg.markerNames[c]
    ensures r.markables == reg.markables && r.marks == reg.marks
    ensures Valid(reg) ==> Valid(r)
  {
    AddMarker(reg.(markerNames := reg.markerNames[cls := Downcase(cls)]), cls)
  }
}
