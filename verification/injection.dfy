/**
 * The G-code hook `add_snapshot_to_gcode` (files/plugins/Installer.py lines
 * 164-191). The scene's `gcode_dict` maps a build plate number to that
 * plate's list of G-code program texts. Every program is visited in order;
 * a program whose text contains ";gimage" gets the large thumbnail block
 * prepended to the first program of plate 0, and one containing ";simage"
 * the small one. The two frames are inputs: the host renders them.
 */
module Injection {
  import opened Wrappers
  import opened Text
  import opened Snapshot

  /** Tags a slicer profile writes to ask for a thumbnail. */
  const GimageTag: string := ";gimage"
  const SimageTag: string := ";simage"

  /** Headers the thumbnail blocks start with. */
  const GimageHeader: string := ";;gimage:"
  const SimageHeader: string := ";simage:"

  /** One entry of `gcode_dict`: a plate number and its list of program texts. */
  datatype Plate = Plate(number: int, programs: seq<string>)

  /** `gcode_dict`, its entries in insertion order, the order `items()` yields them. */
  type GcodeDict = seq<Plate>

  /** The exceptions `gcode_dict[0][0]` can raise. */
  datatype PyError = KeyError | IndexError

  /** The state of the dict after a run, and the exception that ended it early, if any. */
  datatype Run = Run(dict: GcodeDict, raised: Option<PyError>)

  /** The outcome of the hook: the scene's dict as left behind, and any exception. */
  datatype Outcome = Outcome(scene: Option<GcodeDict>, raised: Option<PyError>)

  /** Dict lookup `gcode_dict[n]`: the position of the plate numbered `n`. */
  function FindPlate(d: GcodeDict, n: int): (r: Option<nat>)
    ensures r.Some? ==> r.value < |d| && d[r.value].number == n
    ensures r.Some? ==> forall k :: 0 <= k < r.value ==> d[k].number != n
    ensures r.None? <==> forall k :: 0 <= k < |d| ==> d[k].number != n
  {
    FindPlateFrom(d, n, 0)
  }

  /** The scan behind `FindPlate`, from position `from` on. */
  function FindPlateFrom(d: GcodeDict, n: int, from: nat): (r: Option<nat>)
    requires from <= |d|
    ensures r.Some? ==> from <= r.value < |d| && d[r.value].number == n
    ensures r.Some? ==> forall k :: from <= k < r.value ==> d[k].number != n
    ensures r.None? <==> forall k :: from <= k < |d| ==> d[k].number != n
    decreases |d| - from
  {
    if from == |d| then None
    else if d[from].number == n then Some(from)
    else FindPlateFrom(d, n, from + 1)
  }

  /** Same plates, in the same order, with the same number of programs each. */
  ghost predicate SameShape(a: GcodeDict, b: GcodeDict)
  {
    && |a| == |b|
    && forall k :: 0 <= k < |a| ==> a[k].number == b[k].number && |a[k].programs| == |b[k].programs|
  }

  /** `d` with the first program of the plate at position `t` replaced by `s`. */
  function SetFirst(d: GcodeDict, t: nat, s: string): (r: GcodeDict)
    requires t < |d| && |d[t].programs| > 0
    ensures SameShape(d, r)
  {
    d[t := d[t].(programs := d[t].programs[0 := s])]
  }

  /** There is a `gcode_dict[0][0]` to write to. */
  predicate HasTarget(d: GcodeDict)
  {
    FindPlate(d, 0).Some? && |d[FindPlate(d, 0).value].programs| > 0
  }

  /** Where `gcode_dict[0][0]` lives, when it exists. */
  function Target(d: GcodeDict): (t: nat)
    requires HasTarget(d)
    ensures t < |d| && d[t].number == 0 && |d[t].programs| > 0
  {
    FindPlate(d, 0).value
  }

  /** The exception `gcode_dict[0][0]` raises when there is no target. */
  function MissingTarget(d: GcodeDict): PyError
  {
    if FindPlate(d, 0).None? then KeyError else IndexError
  }

  /**
   * `gcode_dict[0][0] = text + gcode_dict[0][0]` (lines 182 and 191):
   * the lookup raises KeyError without a plate 0 and IndexError when its
   * list is empty, before anything is written.
   */
  function Prepend(d: GcodeDict, text: string): (r: Run)
    ensures SameShape(d, r.dict)
    ensures r.raised.None? <==> HasTarget(d)
    ensures r.raised.Some? ==> r.dict == d && r.raised == Some(MissingTarget(d))
    ensures HasTarget(d) ==> r.dict == SetFirst(d, Target(d), text + d[Target(d)].programs[0])
  {
    match FindPlate(d, 0)
    case None => Run(d, Some(KeyError))
    case Some(t) =>
      if |d[t].programs| == 0 then Run(d, Some(IndexError))
      else Run(SetFirst(d, t, text + d[t].programs[0]), None)
  }

  /**
   * The body of the inner loop (lines 176-191) for a program whose text, as
   * read when the loop reached it, is `read`: the large block when it holds
   * ";gimage", then the small block when the same text holds ";simage".
   */
  function VisitProgram(d: GcodeDict, read: string, big: string, small: string): (r: Run)
    ensures SameShape(d, r.dict)
  {
    var afterBig := if Contains(read, GimageTag) then Prepend(d, GimageHeader + big) else Run(d, None);
    if afterBig.raised.Some? then afterBig
    else if Contains(read, SimageTag) then Prepend(afterBig.dict, SimageHeader + small)
    else afterBig
  }

  /** The inner loop from index `i` on, each program read from the current dict. */
  function VisitPrograms(d: GcodeDict, p: nat, i: nat, big: string, small: string): (r: Run)
    requires p < |d| && i <= |d[p].programs|
    ensures SameShape(d, r.dict)
    decreases |d[p].programs| - i
  {
    if i == |d[p].programs| then Run(d, None)
    else
      var step := VisitProgram(d, d[p].programs[i], big, small);
      if step.raised.Some? then step else VisitPrograms(step.dict, p, i + 1, big, small)
  }

  /** The outer loop (line 172) from the plate at position `p` on. */
  function VisitPlates(d: GcodeDict, p: nat, big: string, small: string): (r: Run)
    requires p <= |d|
    ensures SameShape(d, r.dict)
    decreases |d| - p
  {
    if p == |d| then Run(d, None)
    else
      var step := VisitPrograms(d, p, 0, big, small);
      if step.raised.Some? then step else VisitPlates(step.dict, p + 1, big, small)
  }

  /**
   * `add_snapshot_to_gcode`: nothing happens when the scene has no
   * `gcode_dict` or it is empty (lines 167-169); otherwise every program of
   * every plate is visited. The dict is only ever written at
   * `gcode_dict[0][0]`, so when an exception escapes it is still the dict
   * the hook was given.
   */
  function AddSnapshotToGcode(scene: Option<GcodeDict>, big: string, small: string): (r: Outcome)
    ensures scene.None? || |scene.value| == 0 ==> r == Outcome(scene, None)
    ensures r.scene.Some? <==> scene.Some?
    ensures r.scene.Some? ==> SameShape(scene.value, r.scene.value)
  {
    if scene.None? || |scene.value| == 0 then Outcome(scene, None)
    else
      var run := VisitPlates(scene.value, 0, big, small);
      Outcome(Some(run.dict), run.raised)
  }

  // ---------------------------------------------------------------------
  // Lookup after a write
  // ---------------------------------------------------------------------

  /** Writing program texts never moves plate 0. */
  lemma FindPlateSameShape(a: GcodeDict, b: GcodeDict, n: int)
    requires SameShape(a, b)
    ensures FindPlate(a, n) == FindPlate(b, n)
  {
    var fa, fb := FindPlate(a, n), FindPlate(b, n);
    if fa.Some? {
      assert b[fa.value].number == n;
    }
    if fb.Some? {
      assert a[fb.value].number == n;
    }
  }

  lemma HasTargetSameShape(a: GcodeDict, b: GcodeDict)
    requires SameShape(a, b)
    ensures HasTarget(a) <==> HasTarget(b)
    ensures HasTarget(a) ==> Target(a) == Target(b)
    ensures MissingTarget(a) == MissingTarget(b)
  {
    FindPlateSameShape(a, b, 0);
  }

  // ---------------------------------------------------------------------
  // The reference: what the loop leaves at gcode_dict[0][0]
  // ---------------------------------------------------------------------

  /**
   * The blocks one visited program contributes, in the order they end up
   * in front of the text: the small block (prepended last) first.
   */
  function Headers(read: string, big: string, small: string): string
  {
    (if Contains(read, SimageTag) then SimageHeader + small else "")
    + (if Contains(read, GimageTag) then GimageHeader + big else "")
  }

  /**
   * The text the loop reads at position (`p`, `i`) of the ORIGINAL dict `d`
   * once `acc` has been prepended to its target `t`: only the target's own
   * text has changed.
   */
  function ReadAt(d: GcodeDict, t: nat, acc: string, p: nat, i: nat): string
    requires t < |d| && |d[t].programs| > 0
    requires p < |d| && i < |d[p].programs|
  {
    if p == t && i == 0 then acc + d[t].programs[0] else d[p].programs[i]
  }

  /**
   * What the programs of plate `p` from index `i` on prepend to the target,
   * on top of `acc` already there. Each visited program contributes the
   * headers of the text read at its turn, once.
   */
  function RefPlate(d: GcodeDict, t: nat, p: nat, i: nat, acc: string, big: string, small: string): string
    requires t < |d| && |d[t].programs| > 0
    requires p < |d| && i <= |d[p].programs|
    decreases |d[p].programs| - i
  {
    if i == |d[p].programs| then acc
    else RefPlate(d, t, p, i + 1, Headers(ReadAt(d, t, acc, p, i), big, small) + acc, big, small)
  }

  /** What the plates from position `p` on prepend to the target, on top of `acc`. */
  function RefPlates(d: GcodeDict, t: nat, p: nat, acc: string, big: string, small: string): string
    requires t < |d| && |d[t].programs| > 0
    requires p <= |d|
    decreases |d| - p
  {
    if p == |d| then acc else RefPlates(d, t, p + 1, RefPlate(d, t, p, 0, acc, big, small), big, small)
  }

  /** Writing the target twice keeps only the second text. */
  lemma SetFirstTwice(d: GcodeDict, t: nat, a: string, b: string)
    requires t < |d| && |d[t].programs| > 0
    ensures SetFirst(SetFirst(d, t, a), t, b) == SetFirst(d, t, b)
  {
    var once := SetFirst(d, t, a);
    assert once[t].programs[0 := b] == d[t].programs[0 := b];
  }

  /** Prepending to a dict whose target already carries `x` puts `text` in front of `x`. */
  lemma PrependOnSetFirst(d: GcodeDict, t: nat, x: string, text: string)
    requires HasTarget(d) && t == Target(d)
    ensures Prepend(SetFirst(d, t, x), text) == Run(SetFirst(d, t, text + x), None)
  {
    var s := SetFirst(d, t, x);
    HasTargetSameShape(d, s);
    SetFirstTwice(d, t, x, text + x);
  }

  /** One visit to a dict whose target carries `acc` prepends that program's headers. */
  lemma VisitProgramWithTarget(d: GcodeDict, t: nat, acc: string, read: string, big: string, small: string)
    requires HasTarget(d) && t == Target(d)
    ensures VisitProgram(SetFirst(d, t, acc + d[t].programs[0]), read, big, small)
      == Run(SetFirst(d, t, Headers(read, big, small) + acc + d[t].programs[0]), None)
  {
    var x := acc + d[t].programs[0];
    var g := if Contains(read, GimageTag) then GimageHeader + big else "";
    var h := if Contains(read, SimageTag) then SimageHeader + small else "";
    var s0 := SetFirst(d, t, x);
    var afterBig := if Contains(read, GimageTag) then Prepend(s0, GimageHeader + big) else Run(s0, None);
    assert afterBig == Run(SetFirst(d, t, g + x), None) by {
      if Contains(read, GimageTag) {
        PrependOnSetFirst(d, t, x, g);
      } else {
        assert g + x == x;
      }
    }
    var r := if Contains(read, SimageTag) then Prepend(afterBig.dict, SimageHeader + small) else afterBig;
    assert r == Run(SetFirst(d, t, h + (g + x)), None) by {
      if Contains(read, SimageTag) {
        PrependOnSetFirst(d, t, g + x, h);
      } else {
        assert h + (g + x) == g + x;
      }
    }
    assert VisitProgram(s0, read, big, small) == r;
    assert Headers(read, big, small) == h + g;
    AppendAssoc(h, g, acc, d[t].programs[0]);
  }

  lemma AppendAssoc(h: string, g: string, a: string, o: string)
    ensures h + g + a + o == h + (g + (a + o))
  {
  }

  /** The program read at (`p`, `i`) of the current dict is `ReadAt` of the original. */
  lemma ReadOfSetFirst(d: GcodeDict, t: nat, acc: string, p: nat, i: nat)
    requires t < |d| && |d[t].programs| > 0
    requires p < |d| && i < |d[p].programs|
    ensures SetFirst(d, t, acc + d[t].programs[0])[p].programs[i] == ReadAt(d, t, acc, p, i)
  {
  }

  /** With a target, the inner loop prepends what `RefPlate` says. */
  lemma {:induction false} VisitProgramsWithTarget(d: GcodeDict, t: nat, p: nat, i: nat, acc: string, big: string, small: string)
    requires HasTarget(d) && t == Target(d)
    requires p < |d| && i <= |d[p].programs|
    ensures VisitPrograms(SetFirst(d, t, acc + d[t].programs[0]), p, i, big, small)
      == Run(SetFirst(d, t, RefPlate(d, t, p, i, acc, big, small) + d[t].programs[0]), None)
    decreases |d[p].programs| - i
  {
    if i < |d[p].programs| {
      var read := ReadAt(d, t, acc, p, i);
      ReadOfSetFirst(d, t, acc, p, i);
      VisitProgramWithTarget(d, t, acc, read, big, small);
      var acc' := Headers(read, big, small) + acc;
      assert Headers(read, big, small) + acc + d[t].programs[0] == acc' + d[t].programs[0];
      VisitProgramsWithTarget(d, t, p, i + 1, acc', big, small);
    }
  }

  /** With a target, the outer loop prepends what `RefPlates` says. */
  lemma {:induction false} VisitPlatesWithTarget(d: GcodeDict, t: nat, p: nat, acc: string, big: string, small: string)
    requires HasTarget(d) && t == Target(d)
    requires p <= |d|
    ensures VisitPlates(SetFirst(d, t, acc + d[t].programs[0]), p, big, small)
      == Run(SetFirst(d, t, RefPlates(d, t, p, acc, big, small) + d[t].programs[0]), None)
    decreases |d| - p
  {
    if p < |d| {
      VisitProgramsWithTarget(d, t, p, 0, acc, big, small);
      VisitPlatesWithTarget(d, t, p + 1, RefPlate(d, t, p, 0, acc, big, small), big, small);
    }
  }

  /** Writing a program's own text back changes nothing. */
  lemma SetFirstSame(d: GcodeDict, t: nat)
    requires t < |d| && |d[t].programs| > 0
    ensures SetFirst(d, t, d[t].programs[0]) == d
  {
    assert d[t].programs[0 := d[t].programs[0]] == d[t].programs;
  }

  // ---------------------------------------------------------------------
  // What the hook does
  // ---------------------------------------------------------------------

  /**
   * With a `gcode_dict[0][0]` to write to, the hook raises nothing and
   * leaves every program as it was except that one, which gains in front
   * exactly the blocks `RefPlates` collects: one per tag found in each
   * program's text, read at its turn.
   */
  lemma AddSnapshotWithTarget(d: GcodeDict, big: string, small: string)
    requires |d| > 0 && HasTarget(d)
    ensures AddSnapshotToGcode(Some(d), big, small)
      == Outcome(Some(SetFirst(d, Target(d), RefPlates(d, Target(d), 0, "", big, small) + d[Target(d)].programs[0])), None)
  {
    var t := Target(d);
    SetFirstSame(d, t);
    assert "" + d[t].programs[0] == d[t].programs[0];
    VisitPlatesWithTarget(d, t, 0, "", big, small);
  }

  /** A program text asks for a thumbnail. */
  predicate Tagged(s: string)
  {
    Contains(s, GimageTag) || Contains(s, SimageTag)
  }

  /** Some program of the list from index `i` on asks for a thumbnail. */
  ghost predicate TaggedFrom(programs: seq<string>, i: nat)
  {
    exists j :: i <= j < |programs| && Tagged(programs[j])
  }

  /** Some program of some plate from position `p` on asks for a thumbnail. */
  ghost predicate AnyTaggedFrom(d: GcodeDict, p: nat)
  {
    exists q :: p <= q < |d| && TaggedFrom(d[q].programs, 0)
  }

  ghost predicate AnyTagged(d: GcodeDict)
  {
    AnyTaggedFrom(d, 0)
  }

  lemma VisitProgramNoTarget(d: GcodeDict, read: string, big: string, small: string)
    requires !HasTarget(d)
    ensures VisitProgram(d, read, big, small) == Run(d, if Tagged(read) then Some(MissingTarget(d)) else None)
  {
  }

  /** Without a target the inner loop writes nothing and raises at the first tagged program. */
  lemma {:induction false} VisitProgramsNoTarget(d: GcodeDict, p: nat, i: nat, big: string, small: string)
    requires !HasTarget(d) && p < |d| && i <= |d[p].programs|
    ensures VisitPrograms(d, p, i, big, small)
      == Run(d, if TaggedFrom(d[p].programs, i) then Some(MissingTarget(d)) else None)
    decreases |d[p].programs| - i
  {
    var programs := d[p].programs;
    if i < |programs| {
      VisitProgramNoTarget(d, programs[i], big, small);
      if Tagged(programs[i]) {
        assert TaggedFrom(programs, i);
      } else {
        VisitProgramsNoTarget(d, p, i + 1, big, small);
        assert TaggedFrom(programs, i) <==> TaggedFrom(programs, i + 1) by {
          if TaggedFrom(programs, i) {
            var j :| i <= j < |programs| && Tagged(programs[j]);
            assert j != i;
          }
        }
      }
    }
  }

  /** Without a target the outer loop writes nothing and raises at the first tagged program. */
  lemma {:induction false} VisitPlatesNoTarget(d: GcodeDict, p: nat, big: string, small: string)
    requires !HasTarget(d) && p <= |d|
    ensures VisitPlates(d, p, big, small)
      == Run(d, if AnyTaggedFrom(d, p) then Some(MissingTarget(d)) else None)
    decreases |d| - p
  {
    if p < |d| {
      VisitProgramsNoTarget(d, p, 0, big, small);
      if TaggedFrom(d[p].programs, 0) {
        assert AnyTaggedFrom(d, p);
      } else {
        VisitPlatesNoTarget(d, p + 1, big, small);
        assert AnyTaggedFrom(d, p) <==> AnyTaggedFrom(d, p + 1) by {
          if AnyTaggedFrom(d, p) {
            var q :| p <= q < |d| && TaggedFrom(d[q].programs, 0);
            assert q != p;
          }
        }
      }
    }
  }

  /**
   * The hook raises exactly when some program asks for a thumbnail and
   * there is no `gcode_dict[0][0]`: KeyError without a plate 0, IndexError
   * when plate 0 has no programs. It leaves the scene's dict as it found it.
   */
  lemma AddSnapshotRaisesIff(scene: Option<GcodeDict>, big: string, small: string)
    ensures var r := AddSnapshotToGcode(scene, big, small);
      r.raised.Some? <==> scene.Some? && AnyTagged(scene.value) && !HasTarget(scene.value)
    ensures var r := AddSnapshotToGcode(scene, big, small);
      r.raised.Some? ==> r.scene == scene && r.raised == Some(MissingTarget(scene.value))
  {
    if scene.Some? {
      var d := scene.value;
      if |d| == 0 {
        assert !AnyTaggedFrom(d, 0);
      } else if HasTarget(d) {
        AddSnapshotWithTarget(d, big, small);
      } else {
        VisitPlatesNoTarget(d, 0, big, small);
      }
    }
  }

  /**
   * When no program asks for a thumbnail the hook changes nothing and
   * raises nothing, whether or not plate 0 exists.
   */
  lemma AddSnapshotUntagged(d: GcodeDict, big: string, small: string)
    requires !AnyTagged(d)
    ensures AddSnapshotToGcode(Some(d), big, small) == Outcome(Some(d), None)
  {
    if |d| > 0 {
      if HasTarget(d) {
        var t := Target(d);
        RefPlatesUntagged(d, t, 0, big, small);
        AddSnapshotWithTarget(d, big, small);
        SetFirstSame(d, t);
        assert "" + d[t].programs[0] == d[t].programs[0];
      } else {
        VisitPlatesNoTarget(d, 0, big, small);
      }
    }
  }

  lemma {:induction false} RefPlateUntagged(d: GcodeDict, t: nat, p: nat, i: nat, big: string, small: string)
    requires t < |d| && |d[t].programs| > 0
    requires p < |d| && i <= |d[p].programs| && !TaggedFrom(d[p].programs, i)
    ensures RefPlate(d, t, p, i, "", big, small) == ""
    decreases |d[p].programs| - i
  {
    if i < |d[p].programs| {
      assert !Tagged(d[p].programs[i]);
      assert ReadAt(d, t, "", p, i) == d[p].programs[i] by {
        assert "" + d[t].programs[0] == d[t].programs[0];
      }
      RefPlateUntagged(d, t, p, i + 1, big, small);
    }
  }

  lemma {:induction false} RefPlatesUntagged(d: GcodeDict, t: nat, p: nat, big: string, small: string)
    requires t < |d| && |d[t].programs| > 0
    requires p <= |d| && !AnyTaggedFrom(d, p)
    ensures RefPlates(d, t, p, "", big, small) == ""
    decreases |d| - p
  {
    if p < |d| {
      assert !TaggedFrom(d[p].programs, 0);
      RefPlateUntagged(d, t, p, 0, big, small);
      RefPlatesUntagged(d, t, p + 1, big, small);
    }
  }

  /**
   * Whatever happens, every program other than `gcode_dict[0][0]` is left
   * exactly as it was, and that one only gains text in front: no tag is
   * ever removed.
   */
  lemma AddSnapshotOnlyPrepends(d: GcodeDict, big: string, small: string, p: nat, i: nat)
    requires p < |d| && i < |d[p].programs|
    ensures var r := AddSnapshotToGcode(Some(d), big, small).scene.value;
      && (HasTarget(d) && p == Target(d) && i == 0
          ==> exists pre :: r[p].programs[i] == pre + d[p].programs[i])
      && (!(HasTarget(d) && p == Target(d) && i == 0) ==> r[p].programs[i] == d[p].programs[i])
  {
    var r := AddSnapshotToGcode(Some(d), big, small).scene.value;
    if HasTarget(d) {
      var t := Target(d);
      AddSnapshotWithTarget(d, big, small);
      if p == t && i == 0 {
        var pre := RefPlates(d, t, 0, "", big, small);
        assert r[p].programs[i] == pre + d[p].programs[i];
      }
    } else {
      AddSnapshotRaisesIff(Some(d), big, small);
      if AnyTagged(d) {
      } else {
        AddSnapshotUntagged(d, big, small);
      }
    }
  }

  /** A tag present in any program before the hook runs is still there after it. */
  lemma AddSnapshotKeepsTags(d: GcodeDict, big: string, small: string, p: nat, i: nat, tag: string)
    requires p < |d| && i < |d[p].programs| && Contains(d[p].programs[i], tag)
    ensures Contains(AddSnapshotToGcode(Some(d), big, small).scene.value[p].programs[i], tag)
  {
    var r := AddSnapshotToGcode(Some(d), big, small).scene.value;
    AddSnapshotOnlyPrepends(d, big, small, p, i);
    if HasTarget(d) && p == Target(d) && i == 0 {
      var pre :| r[p].programs[i] == pre + d[p].programs[i];
      ContainsAfterPrefix(pre, d[p].programs[i], tag);
    }
  }

  // ---------------------------------------------------------------------
  // Frames and tags
  // ---------------------------------------------------------------------

  /** A rendered frame never holds either tag: it has no 'g' and no 's'. */
  lemma FrameCarriesNoTag(img: Bitmap)
    ensures !Contains(Frame(img), GimageTag)
    ensures !Contains(Frame(img), SimageTag)
  {
    FrameAvoids(img, 'g');
    FrameAvoids(img, 's');
    NotContainsByChar(Frame(img), GimageTag, 1);
    NotContainsByChar(Frame(img), SimageTag, 1);
  }

  /** The large block's header holds the ";gimage" tag, one character in. */
  lemma GimageHeaderIsTagged()
    ensures Contains(GimageHeader, GimageTag)
  {
    assert OccursAt(GimageHeader, GimageTag, 1);
  }

  lemma RefPlateSingle(d: GcodeDict, t: nat, p: nat, acc: string, big: string, small: string)
    requires t < |d| && |d[t].programs| > 0
    requires p < |d| && |d[p].programs| == 1
    ensures RefPlate(d, t, p, 0, acc, big, small) == Headers(ReadAt(d, t, acc, p, 0), big, small) + acc
  {
    var acc' := Headers(ReadAt(d, t, acc, p, 0), big, small) + acc;
    assert RefPlate(d, t, p, 1, acc', big, small) == acc';
  }

  lemma RefPlatesOne(d: GcodeDict, t: nat, acc: string, big: string, small: string)
    requires |d| == 1 && t < |d| && |d[t].programs| > 0
    ensures RefPlates(d, t, 0, acc, big, small) == RefPlate(d, t, 0, 0, acc, big, small)
  {
    var acc' := RefPlate(d, t, 0, 0, acc, big, small);
    assert RefPlates(d, t, 1, acc', big, small) == acc';
  }

  lemma RefPlatesTwo(d: GcodeDict, t: nat, acc: string, big: string, small: string)
    requires |d| == 2 && t < |d| && |d[t].programs| > 0
    ensures RefPlates(d, t, 0, acc, big, small) == RefPlate(d, t, 1, 0, RefPlate(d, t, 0, 0, acc, big, small), big, small)
  {
    var acc' := RefPlate(d, t, 0, 0, acc, big, small);
    var acc'' := RefPlate(d, t, 1, 0, acc', big, small);
    assert RefPlates(d, t, 2, acc'', big, small) == acc'';
    assert RefPlates(d, t, 1, acc', big, small) == acc'';
  }

  lemma SetFirstOfSingle(n: int, a: string, b: string)
    ensures SetFirst([Plate(n, [a])], 0, b) == [Plate(n, [b])]
  {
    assert [a][0 := b] == [b];
  }

  lemma SetFirstOfSecond(first: Plate, n: int, a: string, b: string)
    ensures SetFirst([first, Plate(n, [a])], 1, b) == [first, Plate(n, [b])]
  {
    assert [a][0 := b] == [b];
  }

  lemma AppendRegroup(a: string, b: string, c: string, e: string, f: string)
    ensures a + b + (c + e) + "" + f == a + b + c + e + f
  {
  }

  /**
   * A single program holding both tags, on plate 0: the small block ends up
   * in front of the large one, which is in front of the original text.
   */
  lemma BothTagsOrder(text: string, big: string, small: string)
    requires Contains(text, GimageTag) && Contains(text, SimageTag)
    ensures AddSnapshotToGcode(Some([Plate(0, [text])]), big, small)
      == Outcome(Some([Plate(0, [SimageHeader + small + GimageHeader + big + text])]), None)
  {
    var d := [Plate(0, [text])];
    assert FindPlate(d, 0) == Some(0);
    AddSnapshotWithTarget(d, big, small);
    assert ReadAt(d, 0, "", 0, 0) == text;
    RefPlatesOne(d, 0, "", big, small);
    RefPlateSingle(d, 0, 0, "", big, small);
    var h := Headers(text, big, small);
    assert h == SimageHeader + small + (GimageHeader + big);
    AppendRegroup(SimageHeader, small, GimageHeader, big, text);
    SetFirstOfSingle(0, text, h + "" + text);
  }

  /**
   * The loop re-reads `gcode_dict[0][0]` when it reaches it. When another
   * plate is visited first and asks for the large thumbnail, the block
   * prepended for it carries ";gimage" in its header, so plate 0's first
   * program asks again and the large block is written twice.
   */
  lemma SelfFeedback(bigImg: Bitmap, smallImg: Bitmap)
    ensures var big, small := Frame(bigImg), Frame(smallImg);
      AddSnapshotToGcode(Some([Plate(1, [GimageTag]), Plate(0, ["G28"])]), big, small)
        == Outcome(Some([Plate(1, [GimageTag]), Plate(0, [GimageHeader + big + GimageHeader + big + "G28"])]), None)
  {
    var big, small := Frame(bigImg), Frame(smallImg);
    FrameAvoids(bigImg, 's');
    SecondVisitReadsBlock([Plate(1, [GimageTag]), Plate(0, ["G28"])], big, small);
    SelfFeedbackOf(big, small);
  }

  /**
   * The same run for any large block that, once prepended to "G28", still
   * asks for the large thumbnail and only for it.
   */
  lemma SelfFeedbackOf(big: string, small: string)
    requires var d := [Plate(1, [GimageTag]), Plate(0, ["G28"])];
      RefPlate(d, 1, 1, 0, GimageHeader + big, big, small) == GimageHeader + big + (GimageHeader + big)
    ensures AddSnapshotToGcode(Some([Plate(1, [GimageTag]), Plate(0, ["G28"])]), big, small)
        == Outcome(Some([Plate(1, [GimageTag]), Plate(0, [GimageHeader + big + GimageHeader + big + "G28"])]), None)
  {
    var d := [Plate(1, [GimageTag]), Plate(0, ["G28"])];
    var g := GimageHeader + big;
    assert FindPlate(d, 0) == Some(1) by {
      assert d[1].number == 0 && d[0].number != 0;
    }
    AddSnapshotWithTarget(d, big, small);
    RefPlatesTwo(d, 1, "", big, small);
    assert RefPlate(d, 1, 0, 0, "", big, small) == g by {
      FirstVisitReadsTag(d, big, small);
    }
    SetFirstOfSecond(d[0], 0, "G28", RefPlates(d, 1, 0, "", big, small) + "G28");
    assert g + g + "G28" == GimageHeader + big + GimageHeader + big + "G28";
  }

  lemma FirstVisitReadsTag(d: GcodeDict, big: string, small: string)
    requires d == [Plate(1, [GimageTag]), Plate(0, ["G28"])]
    ensures RefPlate(d, 1, 0, 0, "", big, small) == GimageHeader + big
  {
    assert Contains(GimageTag, GimageTag) by {
      assert OccursAt(GimageTag, GimageTag, 0);
    }
    assert !Contains(GimageTag, SimageTag) by {
      NotContainsByChar(GimageTag, SimageTag, 1);
    }
    assert ReadAt(d, 1, "", 0, 0) == GimageTag;
    RefPlateSingle(d, 1, 0, "", big, small);
  }

  lemma SecondVisitReadsBlock(d: GcodeDict, big: string, small: string)
    requires d == [Plate(1, [GimageTag]), Plate(0, ["G28"])] && Avoids(big, 's')
    ensures RefPlate(d, 1, 1, 0, GimageHeader + big, big, small) == GimageHeader + big + (GimageHeader + big)
  {
    var g := GimageHeader + big;
    var read := g + "G28";
    assert ReadAt(d, 1, g, 1, 0) == read;
    assert Contains(read, GimageTag) by {
      GimageHeaderIsTagged();
      ContainsBeforeSuffix(GimageHeader, big + "G28", GimageTag);
      assert GimageHeader + (big + "G28") == read;
    }
    assert !Contains(read, SimageTag) by {
      assert Avoids(GimageHeader, 's');
      assert Avoids("G28", 's');
      AvoidsAppend(GimageHeader, big, 's');
      AvoidsAppend(g, "G28", 's');
      NotContainsByChar(read, SimageTag, 1);
    }
    RefPlateSingle(d, 1, 1, g, big, small);
  }

  /**
   * The small block's header ";simage:" holds a 'g', but not as the second
   * character of ";gimage": followed by text without 'g', it never asks
   * for the large thumbnail.
   */
  lemma SimageHeaderBlocksGimage(rest: string)
    requires Avoids(rest, 'g')
    ensures !Contains(SimageHeader + rest, GimageTag)
  {
    var s := SimageHeader + rest;
    forall i | 0 <= i <= |s| - |GimageTag|
      ensures !OccursAt(s, GimageTag, i)
    {
      var w := s[i..i + |GimageTag|];
      if i + 1 >= |SimageHeader| {
        assert w[1] == rest[i + 1 - |SimageHeader|];
      } else if i == 4 {
        assert w[0] == SimageHeader[4];
      } else {
        assert w[1] == SimageHeader[i + 1];
      }
    }
  }

  /**
   * The same loop-back for the small thumbnail: when another plate visited
   * before plate 0 asks only for the small thumbnail, the block written for
   * it carries ";simage" in its header, so plate 0's first program asks
   * again and the small block is written twice, the large one never.
   */
  lemma SimageFeedback(bigImg: Bitmap, smallImg: Bitmap)
    ensures var big, small := Frame(bigImg), Frame(smallImg);
      AddSnapshotToGcode(Some([Plate(1, [SimageTag]), Plate(0, ["G28"])]), big, small)
        == Outcome(Some([Plate(1, [SimageTag]), Plate(0, [SimageHeader + small + SimageHeader + small + "G28"])]), None)
  {
    var big, small := Frame(bigImg), Frame(smallImg);
    FrameAvoids(smallImg, 'g');
    SecondVisitReadsSmallBlock([Plate(1, [SimageTag]), Plate(0, ["G28"])], big, small);
    SimageFeedbackOf(big, small);
  }

  lemma SimageFeedbackOf(big: string, small: string)
    requires var d := [Plate(1, [SimageTag]), Plate(0, ["G28"])];
      RefPlate(d, 1, 1, 0, SimageHeader + small, big, small) == SimageHeader + small + (SimageHeader + small)
    ensures AddSnapshotToGcode(Some([Plate(1, [SimageTag]), Plate(0, ["G28"])]), big, small)
        == Outcome(Some([Plate(1, [SimageTag]), Plate(0, [SimageHeader + small + SimageHeader + small + "G28"])]), None)
  {
    var d := [Plate(1, [SimageTag]), Plate(0, ["G28"])];
    var h := SimageHeader + small;
    assert FindPlate(d, 0) == Some(1) by {
      assert d[1].number == 0 && d[0].number != 0;
    }
    AddSnapshotWithTarget(d, big, small);
    RefPlatesTwo(d, 1, "", big, small);
    assert RefPlate(d, 1, 0, 0, "", big, small) == h by {
      FirstVisitReadsSmallTag(d, big, small);
    }
    SetFirstOfSecond(d[0], 0, "G28", RefPlates(d, 1, 0, "", big, small) + "G28");
    assert h + h + "G28" == SimageHeader + small + SimageHeader + small + "G28";
  }

  lemma FirstVisitReadsSmallTag(d: GcodeDict, big: string, small: string)
    requires d == [Plate(1, [SimageTag]), Plate(0, ["G28"])]
    ensures RefPlate(d, 1, 0, 0, "", big, small) == SimageHeader + small
  {
    assert Contains(SimageTag, SimageTag) by {
      assert OccursAt(SimageTag, SimageTag, 0);
    }
    assert !Contains(SimageTag, GimageTag) by {
      assert SimageTag[0..|GimageTag|][1] != GimageTag[1];
    }
    assert ReadAt(d, 1, "", 0, 0) == SimageTag;
    RefPlateSingle(d, 1, 0, "", big, small);
  }

  lemma SecondVisitReadsSmallBlock(d: GcodeDict, big: string, small: string)
    requires d == [Plate(1, [SimageTag]), Plate(0, ["G28"])] && Avoids(small, 'g')
    ensures RefPlate(d, 1, 1, 0, SimageHeader + small, big, small) == SimageHeader + small + (SimageHeader + small)
  {
    var h := SimageHeader + small;
    var read := h + "G28";
    assert ReadAt(d, 1, h, 1, 0) == read;
    assert Contains(read, SimageTag) by {
      assert OccursAt(read, SimageTag, 0);
    }
    assert !Contains(read, GimageTag) by {
      assert Avoids("G28", 'g');
      AvoidsAppend(small, "G28", 'g');
      SimageHeaderBlocksGimage(small + "G28");
      assert SimageHeader + (small + "G28") == read;
    }
    RefPlateSingle(d, 1, 1, h, big, small);
  }
}
