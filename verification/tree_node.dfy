/** The edit rules of one row of the plan tree: saving a new name, saving
    the time form (with its "smart" adjustment of the end time), and the
    three markers the row shows. The row's node comes from a time pass
    outside this model; `toMin` and `toStr`, the conversions between time
    strings and minutes that pass provides, are parameters here. */
module TreeNode {
  import opened Common
  import opened NodeTypes
  import PlanNodes

  /** The time fields of the node a row shows. */
  datatype Times = Times(startTime: Option<string>, endTime: Option<string>, duration: Option<int>)

  /** What `String.prototype.trim` removes: white space and line
      terminators. */
  predicate IsJsSpace(c: char)
  {
    var n := c as int;
    (0x09 <= n <= 0x0D) || n == 0x20 || n == 0xA0 || n == 0x1680
    || (0x2000 <= n <= 0x200A)
    || n == 0x2028 || n == 0x2029 || n == 0x202F || n == 0x205F || n == 0x3000 || n == 0xFEFF
  }

  /** `s` without leading white space. */
  function TrimStart(s: string): string
  {
    if |s| > 0 && IsJsSpace(s[0]) then TrimStart(s[1..]) else s
  }

  /** `s` without trailing white space. */
  function TrimEnd(s: string): string
  {
    if |s| > 0 && IsJsSpace(s[|s| - 1]) then TrimEnd(s[..|s| - 1]) else s
  }

  /** `s.trim()` */
  function Trim(s: string): string
  {
    TrimEnd(TrimStart(s))
  }

  /** `TrimStart` drops a run of white space from the front and stops at
      the first other character. */
  lemma {:induction false} TrimStartDrops(s: string)
    ensures var r := TrimStart(s);
            && |r| <= |s| && r == s[|s| - |r|..]
            && (|r| > 0 ==> !IsJsSpace(r[0]))
            && (forall i :: 0 <= i < |s| - |r| ==> IsJsSpace(s[i]))
  {
    if |s| > 0 && IsJsSpace(s[0]) {
      var t := s[1..];
      TrimStartDrops(t);
      var r := TrimStart(s);
      assert r == TrimStart(t);
      assert t[|t| - |r|..] == s[|s| - |r|..];
      forall i | 0 <= i < |s| - |r| ensures IsJsSpace(s[i]) {
        if i > 0 {
          assert s[i] == t[i - 1];
        }
      }
    }
  }

  /** `TrimEnd` keeps a prefix: empty exactly when `s` is all white space,
      and otherwise ending in a character that is not. */
  lemma {:induction false} TrimEndEmptyIff(s: string)
    ensures TrimEnd(s) == "" <==> forall i :: 0 <= i < |s| ==> IsJsSpace(s[i])
  {
    if |s| > 0 && IsJsSpace(s[|s| - 1]) {
      var init := s[..|s| - 1];
      TrimEndEmptyIff(init);
      assert forall i :: 0 <= i < |init| ==> init[i] == s[i];
    }
  }

  /** The trimmed string is empty exactly when every character is white
      space. */
  lemma TrimEmptyIff(s: string)
    ensures Trim(s) == "" <==> forall i :: 0 <= i < |s| ==> IsJsSpace(s[i])
  {
    var a := TrimStart(s);
    TrimStartDrops(s);
    TrimEndEmptyIff(a);
    var off := |s| - |a|;
    assert forall i :: 0 <= i < |a| ==> a[i] == s[off + i];
  }

  /** `handleNameSave`: the name update to send, if any. It is sent when
      the trimmed entry is not empty and the entry differs from the current
      name; the entry itself, untrimmed, is what is sent. */
  function HandleNameSave(editName: string, current: string): (r: Option<string>)
    ensures r.Some? ==> r.value == editName && editName != current
    ensures r.None? <==> editName == current || forall i :: 0 <= i < |editName| ==> IsJsSpace(editName[i])
  {
    TrimEmptyIff(editName);
    if Trim(editName) != "" && editName != current then Some(editName) else None
  }

  /** The end time `handleTimeSave` sends. */
  function SavedEnd(node: Times, formStart: string, formEnd: string, newDur: int,
                    toMin: Option<string> -> Option<int>, toStr: int -> string): Option<string>
  {
    var newStart := NonEmpty(formStart);
    var newEnd := NonEmpty(formEnd);
    // Changing the duration while both ends are set drops the end.
    if Some(newDur) != node.duration && Truthy(newStart) && Truthy(newEnd) then None
    // Moving the start while an end is stored moves the end with it.
    else if newStart != node.startTime && Truthy(newStart) && Truthy(node.endTime)
            && toMin(node.startTime).Some? && toMin(newStart).Some? && toMin(node.endTime).Some? then
      Some(toStr(toMin(node.endTime).value + (toMin(newStart).value - toMin(node.startTime).value)))
    else newEnd
  }

  /** `handleTimeSave`: the update sent for the time form. `newDur` is the
      number read from the duration field. */
  function HandleTimeSave(node: Times, formStart: string, formEnd: string, newDur: int,
                          toMin: Option<string> -> Option<int>, toStr: int -> string): (u: NodePatch)
    ensures u.startTime == Set(NonEmpty(formStart)) && u.duration == Set(Some(newDur))
    ensures u.endTime.Set?
    ensures u == NoNodeChange.(startTime := u.startTime, endTime := u.endTime, duration := u.duration)
  {
    NoNodeChange.(startTime := Set(NonEmpty(formStart)),
                  endTime := Set(SavedEnd(node, formStart, formEnd, newDur, toMin, toStr)),
                  duration := Set(Some(newDur)))
  }

  /** With start and duration as stored, the end sent is exactly the form's
      (absent when the field is empty). */
  lemma EndAsEntered(node: Times, formStart: string, formEnd: string, newDur: int,
                     toMin: Option<string> -> Option<int>, toStr: int -> string)
    requires NonEmpty(formStart) == node.startTime && Some(newDur) == node.duration
    ensures HandleTimeSave(node, formStart, formEnd, newDur, toMin, toStr).endTime == Set(NonEmpty(formEnd))
  {
  }

  /** A changed duration with both ends filled in drops the end, whatever
      happened to the start. */
  lemma DurationChangeDropsEnd(node: Times, formStart: string, formEnd: string, newDur: int,
                               toMin: Option<string> -> Option<int>, toStr: int -> string)
    requires Some(newDur) != node.duration && formStart != "" && formEnd != ""
    ensures HandleTimeSave(node, formStart, formEnd, newDur, toMin, toStr).endTime == Set(None)
  {
  }

  /** A moved start, with an end stored and all three times readable, moves
      the stored end by the same number of minutes, unless the end is
      dropped (a changed duration with both ends filled in). */
  lemma StartMoveShiftsEnd(node: Times, formStart: string, formEnd: string, newDur: int,
                           toMin: Option<string> -> Option<int>, toStr: int -> string)
    requires !(Some(newDur) != node.duration && formStart != "" && formEnd != "")
    requires formStart != "" && Some(formStart) != node.startTime && Truthy(node.endTime)
    requires toMin(node.startTime).Some? && toMin(Some(formStart)).Some? && toMin(node.endTime).Some?
    ensures HandleTimeSave(node, formStart, formEnd, newDur, toMin, toStr).endTime
            == Set(Some(toStr(toMin(node.endTime).value + (toMin(Some(formStart)).value - toMin(node.startTime).value))))
  {
  }

  /** When the end is neither dropped nor moved, it is sent as entered
      (absent when the field is empty). */
  lemma EndOtherwiseAsEntered(node: Times, formStart: string, formEnd: string, newDur: int,
                              toMin: Option<string> -> Option<int>, toStr: int -> string)
    requires !(Some(newDur) != node.duration && formStart != "" && formEnd != "")
    requires !(formStart != "" && Some(formStart) != node.startTime && Truthy(node.endTime)
               && toMin(node.startTime).Some? && toMin(Some(formStart)).Some? && toMin(node.endTime).Some?)
    ensures HandleTimeSave(node, formStart, formEnd, newDur, toMin, toStr).endTime == Set(NonEmpty(formEnd))
  {
  }

  /** So when the two conversions invert each other, a moved end keeps the
      span from start to end that was stored. */
  lemma StartMoveKeepsSpan(node: Times, formStart: string, formEnd: string, newDur: int,
                           toMin: Option<string> -> Option<int>, toStr: int -> string)
    requires !(Some(newDur) != node.duration && formStart != "" && formEnd != "")
    requires formStart != "" && Some(formStart) != node.startTime && Truthy(node.endTime)
    requires toMin(node.startTime).Some? && toMin(Some(formStart)).Some? && toMin(node.endTime).Some?
    requires forall x :: toMin(Some(toStr(x))) == Some(x)
    ensures var u := HandleTimeSave(node, formStart, formEnd, newDur, toMin, toStr);
            && u.endTime.Set? && u.endTime.value.Some?
            && toMin(u.endTime.value).Some?
            && toMin(u.endTime.value).value - toMin(Some(formStart)).value
               == toMin(node.endTime).value - toMin(node.startTime).value
  {
    StartMoveShiftsEnd(node, formStart, formEnd, newDur, toMin, toStr);
    var x := toMin(node.endTime).value + (toMin(Some(formStart)).value - toMin(node.startTime).value);
    assert toMin(Some(toStr(x))) == Some(x);
  }

  /** Applied to the v1 map, a time save sets the start and duration from
      the form and touches nothing else besides the end. */
  lemma TimeSaveApplied(m: map<string, PlanNode>, id: string, node: Times, formStart: string, formEnd: string,
                        newDur: int, toMin: Option<string> -> Option<int>, toStr: int -> string)
    requires id in m
    ensures var r := PlanNodes.UpdateNode(m, id, HandleTimeSave(node, formStart, formEnd, newDur, toMin, toStr));
            && r[id].startTime == NonEmpty(formStart) && r[id].duration == Some(newDur)
            && r[id] == m[id].(startTime := r[id].startTime, endTime := r[id].endTime, duration := r[id].duration)
  {
    PlanNodes.UpdateNodeFields(m, id, HandleTimeSave(node, formStart, formEnd, newDur, toMin, toStr));
  }

  /** The row's markers: a red border for an overlap with the previous
      row, a tinted background for a range problem, and the waiting banner
      for a gap. */
  datatype Markers = Markers(conflict: bool, warning: bool, waitBanner: bool)

  /** The markers for a row with `gapFromPrev` minutes since the previous
      row ends and the two range flags of the time pass. */
  function RowMarkers(gapFromPrev: int, isOutOfParentRange: bool, hasInternalMismatch: bool): (k: Markers)
    ensures k.conflict <==> gapFromPrev < 0
    ensures k.waitBanner <==> gapFromPrev > 0
    ensures k.warning <==> isOutOfParentRange || hasInternalMismatch
  {
    Markers(gapFromPrev < 0, isOutOfParentRange || hasInternalMismatch, gapFromPrev > 0)
  }

  /** A row never shows both an overlap and a wait, and shows neither only
      when it starts exactly as the previous one ends. */
  lemma MarkersExclusive(gapFromPrev: int, isOutOfParentRange: bool, hasInternalMismatch: bool)
    ensures var k := RowMarkers(gapFromPrev, isOutOfParentRange, hasInternalMismatch);
            !(k.conflict && k.waitBanner) && (!k.conflict && !k.waitBanner <==> gapFromPrev == 0)
  {
  }
}
