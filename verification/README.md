# markable: the marking engine, modelled in Dafny

This project models the core of the Ruby gem *markable*. Marker classes
(`acts_as_marker`) put named marks (`:favorite`, `:hated`, ...) on records
of markable classes (`markable_as`). Whether a mark may be applied is
governed by a per-mark allowed-markers policy. The model has three parts:

- **the capability registry** (`Registry`): registered marker class names,
  registered markable class names, and for each markable class a map from
  mark to policy. A policy is either "all markers" or an explicit list of
  marker names, stored as written;
- **the marks store** (`Rows`): a sequence of rows
  `(marker, markable, mark)`, where `marker` and `markable` are
  `(class name, id)` references. The table has no unique index, so "no
  duplicate row" is an invariant the operations are proved to keep
  (`NoDup`);
- **the set of existing records** (`live`): used only by the class-level
  queries (an inner join drops rows whose record is gone), by cascade
  deletion and by orphan reclamation.

Every operation is a pure function. A write returns a `Step`: the store
afterwards, plus the error when one was raised. A Ruby exception does not
undo earlier writes. So `mark_as` and `set_mark` can raise after partial
effects, while `unmark`, `remove_mark` and the query-result `delete`
authorize everything first and raise with the store untouched. The
contracts state which is which.

Modules follow the source files:

| module | source |
|---|---|
| `Registry` | `add_marker`, `add_markable` (lib/markable.rb), `markable_as` (lib/markable/acts_as_markable.rb), `acts_as_marker` (lib/markable/acts_as_marker.rb) |
| `Authorization` | `can_mark_object?`, `can_mark_or_raise?` (lib/markable.rb) |
| `ActsAsMarkable` | `mark_as`, `marked_as?`, `unmark`, class-level `marked_as`, `have_marked_as_by` |
| `ActsAsMarker` | `set_mark`, `remove_mark` |
| `QueryResults` | the `delete` attached to a `have_marked_as_by` result |
| `Orphans` | `Mark.delete_orphans` (lib/models/mark.rb), cascading `dependent: :delete_all` |
| `Rows`, `Names`, `Seqs`, `Wrappers` | rows and `where` filters, class and mark names with `Downcase`, sequence helpers, `Option`/`Result` |

Quirks kept from the code:

- Registration is checked against the class name (`"User"`). Explicit
  policies are checked against the downcased class name (`"user"`). So a
  policy written with class names admits nobody
  (`ClassNamePolicyAdmitsNobody`).
- An empty `by:` counts as absent, because Ruby's `[].present?` is false.
  `markable_as(..., by: [])` therefore gives the mark the unrestricted
  policy. `unmark(mark, by: [])` deletes the rows of every marker.
- The class-level `marked_as` and `have_marked_as_by` queries perform no
  authorization. `marked_as?` authorizes only when given a marker.
- `mark_as` and `set_mark` raise on the first refused element and never
  reach the later ones; rows written for earlier elements stay
  (`MarkAsStopsAtFirstRefusal`, `SetMarkStopsAtFirstRefusal`).
- The registry keeps lists, pushing a name unless it is already included.
- There is no unique index on the marks table; uniqueness rests on
  check-then-insert.

## Model

| member | source | states |
|---|---|---|
| Seqs.PushUnlessIncluded | lib/markable.rb:22-30 | "push unless include?": the element ends up in the list, once when the list was duplicate-free; an already included element leaves the list unchanged; the old list is a prefix; no duplicates are introduced |
| Names.Downcase | lib/markable/acts_as_marker.rb:13 | same length, no upper-case letter remains, other characters unchanged, ASCII capitals mapped to lower case |
| Registry.AddMarker | lib/markable.rb:28-30 | the marker class is listed; registering it again leaves the registry unchanged; the list stays duplicate-free and only grows at the end; nothing else changes |
| Registry.AddMarkable | lib/markable.rb:22-24 | the same for markable classes |
| Registry.RegisterTwice | lib/markable.rb:22-30 | registering a class twice equals registering it once |
| Registry.MarkableAs | lib/markable/acts_as_markable.rb:21-30 | listed marks get the unrestricted policy without `by`, else the explicit list; earlier marks not listed again keep their policies; other classes keep their marks; the markables list gains exactly `cls` (if new) and keeps its order; registry validity is preserved |
| Registry.ActsAsMarker | lib/markable/acts_as_marker.rb:13-19 | the marker name becomes the downcased class name and the class name is registered; validity is preserved |
| Authorization.CanMarkObject | lib/markable.rb:100-111 | never returns false; succeeds exactly when the pair is admissible; on failure the error names the first failing check in the fixed order and every earlier check passes; error payloads name the offending class or records |
| Authorization.UnknownMarkerFirst | lib/markable.rb:103 | an unregistered marker class raises WrongMarkerType whatever the markable and mark |
| Authorization.UnrestrictedAdmitsEveryMarker | lib/markable.rb:107 | an unrestricted declared mark admits every registered marker class |
| Authorization.ExplicitPolicyExact | lib/markable.rb:107-108 | under an explicit list, success exactly when the list holds the downcased marker class name, else NotAllowedMarker |
| Authorization.ClassNamePolicyAdmitsNobody | lib/markable.rb:101-108 | a list whose every name has a capital letter admits no marker |
| Authorization.UnrestrictedCoversLaterMarkers | lib/markable.rb:107 | an unrestricted mark admits a marker class registered after the mark was declared |
| Authorization.CanMarkAll | lib/markable.rb:94-96 | the inner loop succeeds exactly when every markable is admissible for the marker |
| Authorization.CanMarkOrRaise | lib/markable.rb:92-98 | never returns false; succeeds exactly when every (marker, markable) pair is admissible, so empty lists succeed |
| Authorization.CanMarkAllFirstRefusal | lib/markable.rb:94-96 | the inner loop raises the error of its first refused markable |
| Authorization.CanMarkOrRaiseFirstRefusal | lib/markable.rb:92-98 | the error raised is that of the first refused pair in marker-major order |
| Authorization.CanMarkOrRaiseSingle | lib/markable.rb:92-98 | on one marker and one markable the list check equals the single check |
| ActsAsMarkable.MarkAs | lib/markable/acts_as_markable.rb:94-106 | existing rows are kept as a prefix; every added row is (one of the markers, this markable, this mark) for an admitted marker; no duplicate is created; it completes exactly when every marker is admissible |
| ActsAsMarkable.MarkAsMarks | lib/markable/acts_as_markable.rb:94-106 | after success every marker's row is present; rows are only added for registered classes |
| ActsAsMarkable.MarkAsStopsAtFirstRefusal | lib/markable/acts_as_markable.rb:95-96 | it raises the first refused marker's error, leaving exactly the rows of the markers before it |
| ActsAsMarkable.MarkAsPresent | lib/markable/acts_as_markable.rb:104 | marking admitted markers whose rows exist already changes nothing |
| ActsAsMarkable.MarkAsIdempotent | lib/markable/acts_as_markable.rb:104 | repeating a successful `mark_as` leaves the store unchanged |
| ActsAsMarkable.MarkAsExactlyOneRow | lib/markable/acts_as_markable.rb:104 | on a duplicate-free store each marker's row occurs exactly once afterwards |
| ActsAsMarkable.IsMarkedAs | lib/markable/acts_as_markable.rb:108-121 | without `by` it never raises and answers whether a row for this markable and mark exists; with `by` it raises exactly the single check's error when inadmissible, else answers whether the exact row exists |
| ActsAsMarkable.MarkThenMarked | lib/markable/acts_as_markable.rb:94-121 | after a successful `mark_as`, `marked_as?` is true by each marker, and without `by` when at least one marker was given |
| ActsAsMarkable.DeleteEach | lib/markable/acts_as_markable.rb:127-135 | exactly the rows of the given markers for this markable and mark are removed; all others keep their multiplicity |
| ActsAsMarkable.Unmark | lib/markable/acts_as_markable.rb:123-143 | a raise happens only with markers, leaves the store untouched and carries the error of the list check on (markers, markable); it completes exactly when no markers are given or all are admissible; exactly the targeted rows go and others keep their multiplicity; an absent row leaves the store identical; no duplicates appear |
| ActsAsMarkable.UnmarkUndoesMarkAs | lib/markable/acts_as_markable.rb:94-143 | `unmark` by the same markers (or without `by` when none are given) restores the exact store a successful `mark_as` started from, when it held none of the rows `unmark` targets |
| ActsAsMarkable.UnmarkThenUnmarked | lib/markable/acts_as_markable.rb:108-143 | after a successful `unmark`, `marked_as?` is false by each named marker, or false without `by` when none were named |
| ActsAsMarkable.MarkedAs | lib/markable/acts_as_markable.rb:40-64 | with `by`: exactly the existing records of the class holding a (by, record, mark) row; without `by`: exactly the existing records holding a row with this mark, each once; with `by` no duplicates on a duplicate-free store |
| ActsAsMarkable.HaveMarkedAsBy | lib/markable/acts_as_markable.rb:145-152 | exactly the existing records of the target class holding a row for this markable and mark; no duplicates on a duplicate-free store |
| ActsAsMarkable.QueriesSeeMarkAs | lib/markable/acts_as_markable.rb:40-61 | after a successful `mark_as`, when the markable exists each marker's query lists it (the class-level query joins the markable's table), and the markable's query lists each existing marker |
| ActsAsMarker.SetMark | lib/markable/acts_as_marker.rb:24-29 | existing rows are kept as a prefix; added rows are (this marker, one of the markables, this mark) for admitted pairs; no duplicates; completes exactly when every markable is admissible |
| ActsAsMarker.SetMarkMarks | lib/markable/acts_as_marker.rb:24-29 | after success every markable's row is present; rows are only added for registered classes |
| ActsAsMarker.SetMarkIsMarkAs | lib/markable/acts_as_marker.rb:27 | marking one markable from the marker side equals `mark_as` from the markable side |
| ActsAsMarker.SetMarkStopsAtFirstRefusal | lib/markable/acts_as_marker.rb:25-28 | it raises the first refused markable's error, leaving exactly the rows of the markables before it |
| ActsAsMarker.SetMarkPresent | lib/markable/acts_as_marker.rb:27 | `set_mark` on rows already present leaves the store unchanged |
| ActsAsMarker.SetMarkIdempotent | lib/markable/acts_as_marker.rb:27 | repeating a successful `set_mark` leaves the store unchanged |
| ActsAsMarker.UnmarkEach | lib/markable/acts_as_marker.rb:33-35 | once every pair is admitted, exactly the rows (marker, one of the markables, mark) go |
| ActsAsMarker.RemoveMark | lib/markable/acts_as_marker.rb:31-36 | a raise leaves the store untouched and carries the list check's error; completes exactly when every pair is admissible; exactly the targeted rows go; an absent row leaves the store identical |
| ActsAsMarker.RemoveMarkUndoesSetMark | lib/markable/acts_as_marker.rb:24-36 | `remove_mark` restores the exact store a successful `set_mark` of the same markables started from, when it held none of those rows |
| QueryResults.RemoveEach | lib/markable/acts_as_markable.rb:163-165 | calling `remove_mark` per authorized marker equals deleting those markers' rows |
| QueryResults.HaveMarkedAsByDelete | lib/markable/acts_as_markable.rb:161-167 | all markers are authorized before anything is removed; a raise leaves the store untouched and carries the list check's error; on success exactly those markers' rows for this markable and mark go |
| QueryResults.DeleteIsUnmark | lib/markable/acts_as_markable.rb:161-167 | for a non-empty list the `delete` equals `unmark(mark, by: markers)`; for an empty list it removes nothing |
| Orphans.DeleteOrphans | lib/models/mark.rb:15-18 | exactly the orphan rows are removed; a row with both records existing is kept; the count is the number removed; no orphan remains; a store without orphans is returned unchanged with count 0, so an immediate second call returns 0 |
| Orphans.DestroyRecord | lib/markable/acts_as_marker.rb:16 | destroying a record removes exactly its marker-side rows when its class is a marker and its markable-side rows (lib/markable/acts_as_markable.rb:34-37) when its class is a markable |
| Orphans.DestroyLeavesNoOrphans | lib/models/mark.rb:8-9 | destroying a record through the cascade keeps a registered, orphan-free store orphan-free |
| Orphans.BypassOrphansExactly | lib/models/mark.rb:8-9 | deleting a record without the cascade orphans exactly the rows that reference it |

## Left out

- `create_methods` (lib/markable.rb:35-90) and the `class_eval` string methods (lib/markable/acts_as_markable.rb:68-80): generated wrappers that forward to the modelled operations.
- The `<<` methods attached to query results, and the `delete` attached to the class-level `marked_as` result: they forward to `set_mark` and `remove_mark`, which are modelled.
- `method_missing` and `set_models`: they reflect over database table names and state nothing the engine relies on.
- Marker blocks (`@@markers_block`) and the lists of class objects (`@@marker_objects`, `@@markable_objects`): metaprogramming hooks with no bearing on authorization or rows.
- Loading rake and the rake task; exception classes and their messages. Errors are the `MarkError` datatype.
- ActiveRecord machinery: joins, polymorphic loading and `has_many` are replaced by the row sequence and the `live` set. The `created_at` column is not modelled. Single-table inheritance (`base_class` in polymorphic joins) is not modelled.
- ActsAsMarkable.HaveMarkedAsBy: the target is assumed to be a marker class. The source joins the target's `marker_marks` association, which only `acts_as_marker` declares (lib/markable/acts_as_marker.rb:16), so any other target class raises when the result is loaded; the model returns no records for it.
- `Orphans.DeleteOrphans`: a row whose class name does not resolve to a class makes the source raise while loading the record; the model treats such a row like any missing record.
- Symbol/string conversions of marks (`to_sym`, `to_s`): marks are compared by plain equality, so a mark passed as a string is not modelled as differing from the symbol.
- Registry.MarkableAs: names given in `by:` are assumed to be symbols. The source compares them with the downcased marker name as a symbol (lib/markable.rb:108), so a name written as a string (`by: 'user'`) admits nobody; the model compares plain strings and would admit the marker.
- `by:` given as something other than a list of records or names (a single record is a one-element list; `nil` is the empty list).
- `Names.Downcase`: ASCII only; Ruby's `String#downcase` also maps non-ASCII capitals.
- `markable_name` (downcased, `::` replaced): set by `markable_as` and read by nothing in the engine.
- Concurrency of check-then-insert: there is no unique index (test/dummy/db/schema.rb:52-55), so uniqueness is proved for sequential use only.
- Record ids are unbounded integers; a `nil` id of an unsaved record is not modelled.
