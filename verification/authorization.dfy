/**
 * `can_mark_object?` and `can_mark_or_raise?`: whether a marker record may
 * put a mark on a markable record, decided by four checks in a fixed order,
 * the first failing one naming the error.
 */
module Authorization {
  import opened Wrappers
  import opened Names
  import opened Rows
  import opened Registry

  /** The four errors the check raises. */
  datatype MarkError =
    | WrongMarkerType(markerType: TypeName)
    | WrongMarkableType(markableType: TypeName)
    | WrongMark(marker: Ref, markable: Ref, mark: Mark)
    | NotAllowedMarker(marker: Ref, markable: Ref, mark: Mark)

  /**
   * The result of an operation that writes the store: the store afterwards,
   * and the error when one was raised. A raise does not undo what was
   * written before it, so a `Raised` store may differ from the original one.
   */
  datatype Step = Done(store: Store) | Raised(store: Store, error: MarkError)

  /** Position of the check that raises each error. */
  function Rank(e: MarkError): nat
  {
    match e
    case WrongMarkerType(_) => 0
    case WrongMarkableType(_) => 1
    case WrongMark(_, _, _) => 2
    case NotAllowedMarker(_, _, _) => 3
  }

  /** Check number `k` of the four, taken on its own, fails. */
  predicate CheckFails(reg: Registry, k: nat, marker: Ref, markable: Ref, mark: Mark)
  {
    match k
    case 0 => marker.typ !in reg.markers
    case 1 => markable.typ !in reg.markables
    case 2 => mark !in MarksFor(reg, markable.typ)
    case _ =>
      mark !in MarksFor(reg, markable.typ) ||
      !Permits(MarksFor(reg, markable.typ)[mark], Downcase(marker.typ))
  }

  /**
   * The marker may apply the mark to the markable: both classes are
   * registered by class name, the markable's class declares the mark, and
   * the mark's policy lets the downcased marker class name through.
   */
  predicate Admissible(reg: Registry, marker: Ref, markable: Ref, mark: Mark)
  {
    && marker.typ in reg.markers
    && markable.typ in reg.markables
    && mark in MarksFor(reg, markable.typ)
    && Permits(MarksFor(reg, markable.typ)[mark], Downcase(marker.typ))
  }

  /** `Markable.can_mark_object?`: true, or raise the first failing check's error. */
  function CanMarkObject(reg: Registry, marker: Ref, markable: Ref, mark: Mark): (r: Result<bool, MarkError>)
    ensures r.Success? ==> r.value
    ensures r.Success? <==> Admissible(reg, marker, markable, mark)
    ensures r.Success? <==> forall k :: 0 <= k < 4 ==> !CheckFails(reg, k, marker, markable, mark)
    ensures r.Failure? ==> CheckFails(reg, Rank(r.error), marker, markable, mark)
    ensures r.Failure? ==> forall k :: 0 <= k < Rank(r.error) ==> !CheckFails(reg, k, marker, markable, mark)
    ensures r.Failure? && r.error.WrongMarkerType? ==> r.error.markerType == marker.typ
    ensures r.Failure? && r.error.WrongMarkableType? ==> r.error.markableType == markable.typ
    ensures r.Failure? && (r.error.WrongMark? || r.error.NotAllowedMarker?) ==>
              r.error.marker == marker && r.error.markable == markable && r.error.mark == mark
  {
    if marker.typ !in reg.markers then
      assert CheckFails(reg, 0, marker, markable, mark);
      Failure(WrongMarkerType(marker.typ))
    else if markable.typ !in reg.markables then
      assert CheckFails(reg, 1, marker, markable, mark);
      Failure(WrongMarkableType(markable.typ))
    else if mark !in MarksFor(reg, markable.typ) then
      assert CheckFails(reg, 2, marker, markable, mark);
      Failure(WrongMark(marker, markable, mark))
    else if !Permits(MarksFor(reg, markable.typ)[mark], Downcase(marker.typ)) then
      assert CheckFails(reg, 3, marker, markable, mark);
      Failure(NotAllowedMarker(marker, markable, mark))
    else Success(true)
  }

  /** An unregistered marker class is reported before anything else is looked at. */
  lemma UnknownMarkerFirst(reg: Registry, marker: Ref, markable: Ref, mark: Mark)
    requires marker.typ !in reg.markers
    ensures CanMarkObject(reg, marker, markable, mark) == Failure(WrongMarkerType(marker.typ))
  {
  }

  /** An unrestricted mark admits every registered marker class. */
  lemma UnrestrictedAdmitsEveryMarker(reg: Registry, marker: Ref, markable: Ref, mark: Mark)
    requires marker.typ in reg.markers && markable.typ in reg.markables
    requires mark in MarksFor(reg, markable.typ) && MarksFor(reg, markable.typ)[mark] == AllMarkers
    ensures CanMarkObject(reg, marker, markable, mark) == Success(true)
  {
  }

  /**
   * Under an explicit policy, a registered marker on a registered markable
   * that declares the mark is admitted exactly when the list holds its
   * downcased class name.
   */
  lemma ExplicitPolicyExact(reg: Registry, marker: Ref, markable: Ref, mark: Mark)
    requires marker.typ in reg.markers && markable.typ in reg.markables
    requires mark in MarksFor(reg, markable.typ) && MarksFor(reg, markable.typ)[mark].Only?
    ensures CanMarkObject(reg, marker, markable, mark).Success? <==>
              Downcase(marker.typ) in MarksFor(reg, markable.typ)[mark].names
    ensures CanMarkObject(reg, marker, markable, mark).Failure? ==>
              CanMarkObject(reg, marker, markable, mark).error == NotAllowedMarker(marker, markable, mark)
  {
  }

  /**
   * An explicit list written with class names (`by: :User`) admits no one:
   * every name in it has an upper-case letter, and downcased names have none.
   */
  lemma ClassNamePolicyAdmitsNobody(reg: Registry, marker: Ref, markable: Ref, mark: Mark)
    requires mark in MarksFor(reg, markable.typ) && MarksFor(reg, markable.typ)[mark].Only?
    requires forall n :: n in MarksFor(reg, markable.typ)[mark].names ==> exists i :: 0 <= i < |n| && IsUpper(n[i])
    ensures CanMarkObject(reg, marker, markable, mark).Failure?
  {
    var names := MarksFor(reg, markable.typ)[mark].names;
    if Downcase(marker.typ) in names {
      UpperNeverDowncased(Downcase(marker.typ), marker.typ);
    }
  }

  /**
   * A mark declared unrestricted admits marker classes registered after the
   * declaration.
   */
  lemma UnrestrictedCoversLaterMarkers(reg: Registry, cls: TypeName, marks: seq<Mark>, markerCls: TypeName,
                                       marker: Ref, markable: Ref, mark: Mark)
    requires mark in marks && markable.typ == cls && marker.typ == markerCls
    ensures CanMarkObject(ActsAsMarker(MarkableAs(reg, cls, marks, []), markerCls), marker, markable, mark) == Success(true)
  {
  }

  /** The inner `all?` of `can_mark_or_raise?`: one marker against every markable, in order. */
  function CanMarkAll(reg: Registry, marker: Ref, markables: seq<Ref>, mark: Mark): (r: Result<bool, MarkError>)
    decreases |markables|
    ensures r.Success? ==> r.value
    ensures r.Success? <==> forall j :: 0 <= j < |markables| ==> Admissible(reg, marker, markables[j], mark)
  {
    if |markables| == 0 then Success(true)
    else match CanMarkObject(reg, marker, markables[0], mark)
      case Failure(e) => Failure(e)
      case Success(_) => CanMarkAll(reg, marker, markables[1..], mark)
  }

  /**
   * `Markable.can_mark_or_raise?(markers, markables, mark)`: every pair is
   * checked, markers in the outer loop; since a check either passes or
   * raises, the first refused pair's error is raised. Empty lists pass.
   */
  function CanMarkOrRaise(reg: Registry, markers: seq<Ref>, markables: seq<Ref>, mark: Mark): (r: Result<bool, MarkError>)
    decreases |markers|
    ensures r.Success? ==> r.value
    ensures r.Success? <==> forall i, j :: 0 <= i < |markers| && 0 <= j < |markables| ==>
                                Admissible(reg, markers[i], markables[j], mark)
  {
    if |markers| == 0 then Success(true)
    else match CanMarkAll(reg, markers[0], markables, mark)
      case Failure(e) => Failure(e)
      case Success(_) =>
        var rest := CanMarkOrRaise(reg, markers[1..], markables, mark);
        assert forall i :: 1 <= i < |markers| ==> markers[i] == markers[1..][i - 1];
        rest
  }

  /** The inner loop raises the error of its first refused markable. */
  lemma {:induction false} CanMarkAllFirstRefusal(reg: Registry, marker: Ref, markables: seq<Ref>, mark: Mark, j: nat)
    requires j < |markables|
    requires forall j' :: 0 <= j' < j ==> Admissible(reg, marker, markables[j'], mark)
    requires !Admissible(reg, marker, markables[j], mark)
    ensures CanMarkAll(reg, marker, markables, mark) == CanMarkObject(reg, marker, markables[j], mark)
    decreases j
  {
    if j > 0 {
      assert forall j' :: 0 <= j' < j - 1 ==> markables[1..][j'] == markables[j' + 1];
      assert markables[1..][j - 1] == markables[j];
      CanMarkAllFirstRefusal(reg, marker, markables[1..], mark, j - 1);
    }
  }

  /**
   * `can_mark_or_raise?` raises the error of the first refused (marker,
   * markable) pair in marker-major order, whatever the pairs after it.
   */
  lemma {:induction false} CanMarkOrRaiseFirstRefusal(reg: Registry, markers: seq<Ref>, markables: seq<Ref>, mark: Mark,
                                                      i: nat, j: nat)
    requires i < |markers| && j < |markables|
    requires forall i', j' :: 0 <= i' < |markers| && 0 <= j' < |markables| && (i' < i || (i' == i && j' < j)) ==>
               Admissible(reg, markers[i'], markables[j'], mark)
    requires !Admissible(reg, markers[i], markables[j], mark)
    ensures CanMarkOrRaise(reg, markers, markables, mark) == CanMarkObject(reg, markers[i], markables[j], mark)
    decreases i
  {
    if i == 0 {
      CanMarkAllFirstRefusal(reg, markers[0], markables, mark, j);
    } else {
      assert forall j' :: 0 <= j' < |markables| ==> Admissible(reg, markers[0], markables[j'], mark);
      assert forall i' :: 0 <= i' < |markers[1..]| ==> markers[1..][i'] == markers[i' + 1];
      CanMarkOrRaiseFirstRefusal(reg, markers[1..], markables, mark, i - 1, j);
    }
  }

  /** On one marker and one markable, the list check is the single check. */
  lemma CanMarkOrRaiseSingle(reg: Registry, marker: Ref, markable: Ref, mark: Mark)
    ensures CanMarkOrRaise(reg, [marker], [markable], mark) == CanMarkObject(reg, marker, markable, mark)
  {
  }
}
