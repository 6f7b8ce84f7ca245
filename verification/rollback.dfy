/** The rollback index of verified boot: a record in the TPM remembers whether the last boot was in
    developer mode, and the TPM owner is cleared when the mode changes. Every TPM command may fail. */
module Rollback {
  import opened Wrappers

  /** The flags: last boot in developer mode, virtual developer switch, and all others. */
  datatype Flags = Flags(last: bool, virtual: bool, other: nat)

  /** The firmware record; `crcGood` says whether the stored checksum is that of the rest. */
  datatype Record = Record(version: nat, flags: Flags, fwVersions: nat, crcGood: bool)

  const ROLLBACK_SPACE_FIRMWARE_VERSION := 2
  const FRESH_FLAGS := Flags(false, false, 0)

  datatype Space = Missing | Stored(rec: Record)

  datatype Code = Success | BadIndex | MaxNvWrites | CorruptedState | MustReboot | OtherError

  /** Records before version 2 carry no checksum and are always taken. */
  predicate Readable(r: Record) {
    r.version < 2 || r.crcGood
  }

  predicate Unreadable(s: Space) {
    s.Stored? && !Readable(s.rec)
  }

  function AtLeastTwo(r: Record): Record {
    if r.version < 2 then r.(version := 2) else r
  }

  /** The record as it goes to the TPM. */
  function Sealed(r: Record): Record {
    AtLeastTwo(r).(crcGood := true)
  }

  /** What a write of `r` may leave: the record, what was there, or something with a bad checksum. */
  predicate MayLeave(before: Space, r: Record, after: Space) {
    after == Stored(r) || after == before || Unreadable(after)
  }

  /** The decision of a boot from the flags it has read: the effective mode, whether the owner is
      to be cleared, and the flags to store. */
  datatype Decision = Decision(developer: bool, clear: bool, flags: Flags)

  function Decide(found: Flags, developerSwitch: bool, disable: bool, clearRequest: bool): Decision {
    var virtual := found.virtual && !disable;
    var developer := developerSwitch || virtual;
    Decision(developer, developer != found.last || clearRequest, Flags(developer, virtual, found.other))
  }

  class Tpm {
    var space: Space
    /** How often the owner has been cleared, and how often a write that reported success left the
        old record in place. */
    ghost var clears: nat
    ghost var lost: nat
    /** How many commands have failed, or a disabled TPM has been found, and how many writes of those because
        there have been too many without an owner. */
    ghost var faults: nat
    ghost var exhausted: nat
    /** The effective mode of the last successful boot, the clears before and after it, and whether
        one of its writes was lost. */
    ghost var lastMode: Option<bool>
    ghost var clearsBefore: nat
    ghost var clearsAfter: nat
    ghost var lossy: bool

    constructor (space: Space)
      ensures Inv() && lastMode.None?
    {
      this.space := space;
      clears, lost, lastMode, clearsBefore, clearsAfter, lossy := 0, 0, None, 0, 0, false;
      faults, exhausted := 0, 0;
    }

    /** What can be read back remembers the mode `m`. */
    ghost predicate Remembers(m: bool)
      reads this
    {
      space.Stored? && (Readable(space.rec) ==> space.rec.flags.last == m)
    }

    /** Unless the owner has been cleared since, the record remembers the last successful boot. */
    ghost predicate Inv()
      reads this
    {
      clearsBefore <= clearsAfter <= clears &&
      (lastMode.Some? && clears == clearsBefore ==> Remembers(lastMode.value)) &&
      (lastMode.Some? && clears == clearsAfter && !lossy ==> Remembers(lastMode.value))
    }

    /** The bookkeeping of boots has not changed, and the counters have only grown. */
    twostate predicate Between()
      reads this
    {
      lastMode == old(lastMode) && clearsBefore == old(clearsBefore) && clearsAfter == old(clearsAfter) &&
      lossy == old(lossy) && clears >= old(clears) && lost >= old(lost) && faults >= old(faults) &&
      exhausted >= old(exhausted)
    }

    // ---------- commands ----------

    /** A command that has no effect on the record or the owner. */
    method Command() returns (ok: bool)
      modifies `faults
      ensures faults == old(faults) + if ok then 0 else 1
    {
      ok := *;
      if !ok { faults := faults + 1; }
    }

    method ForceClear() returns (ok: bool)
      modifies `clears, `faults
      ensures clears == old(clears) + (if ok then 1 else 0) && faults == old(faults) + if ok then 0 else 1
    {
      ok := Command();
      if ok { clears := clears + 1; }
    }

    method TlclRead() returns (code: Code, r: Record)
      modifies `faults
      ensures faults >= old(faults) && (code == BadIndex ==> space.Missing?)
      ensures code == Success ==> space.Stored? && (r == space.rec || !Readable(r))
      ensures faults == old(faults) ==> if space.Missing? then code == BadIndex else code == Success && r == space.rec
    {
      r := Record(2, FRESH_FLAGS, 0, false);
      var ok := Command();
      if !ok { return OtherError, r; }
      if space.Missing? { return BadIndex, r; }
      ok := Command();
      if !ok { return Success, r; }  // noise
      return Success, space.rec;
    }

    method TlclWrite(r: Record) returns (code: Code)
      modifies `space, `lost, `faults, `exhausted
      ensures Between() && MayLeave(old(space), r, space)
      ensures code == Success && lost == old(lost) ==> space == Stored(r) || Unreadable(space)
      ensures exhausted == old(exhausted) + if code == MaxNvWrites then 1 else 0
      ensures faults == old(faults) ==> code == Success && space == Stored(r) && lost == old(lost)
    {
      var choice: int := *;
      if choice == 0 {
        space := Stored(r);
      } else if choice == 1 {
        var junk: Flags := *;
        space := Stored(Record(2, junk, 0, false));
      }
      code := *;
      if code == Success && space != Stored(r) && !Unreadable(space) { lost := lost + 1; }
      if code == MaxNvWrites { exhausted := exhausted + 1; }
      if code != Success || space != Stored(r) { faults := faults + 1; }
    }

    method TPMClearAndReenable() returns (code: Code)
      modifies `clears, `faults
      ensures Between() && clears <= old(clears) + 1
      ensures code == Success ==> clears == old(clears) + 1
      ensures code == Success <==> faults == old(faults)
    {
      var ok := ForceClear();
      if !ok { return OtherError; }
      ok := Command();
      if !ok { return OtherError; }
      ok := Command();
      if !ok { return OtherError; }
      code := Success;
    }

    method SafeWrite(r: Record) returns (code: Code)
      modifies `space, `clears, `lost, `faults, `exhausted
      ensures Between() && MayLeave(old(space), r, space)
      ensures code == Success && lost == old(lost) ==> space == Stored(r) || Unreadable(space)
      ensures exhausted == old(exhausted) ==> clears == old(clears)
      ensures faults == old(faults) ==> code == Success && space == Stored(r) && Quiet()
    {
      code := TlclWrite(r);
      if code == MaxNvWrites {
        code := TPMClearAndReenable();
        if code != Success { return; }
        code := TlclWrite(r);
      }
    }

    // ---------- the record ----------

    method ReadSpaceFirmware() returns (code: Code, r: Record)
      modifies `faults
      ensures faults >= old(faults) && (code == BadIndex ==> space.Missing?)
      ensures code == Success ==> space.Stored? && Readable(space.rec) && r == AtLeastTwo(space.rec)
      ensures faults == old(faults) ==>
                code == if space.Missing? then BadIndex else if Readable(space.rec) then Success else CorruptedState
    {
      r := Record(2, FRESH_FLAGS, 0, false);
      var attempts := 3;
      while attempts > 0
        invariant faults >= old(faults) && (attempts < 3 && faults == old(faults) ==> Unreadable(space))
      {
        attempts := attempts - 1;
        code, r := TlclRead();
        if code != Success { return; }
        if r.version < 2 { return Success, r.(version := 2); }
        if r.crcGood { return Success, r; }
      }
      code := CorruptedState;
    }

    /** Nothing is lost, no write ran out, and the owner has not been cleared. */
    twostate predicate Quiet()
      reads this
    {
      lost == old(lost) && exhausted == old(exhausted) && clears == old(clears)
    }

    /** A write that reports success has left the record or a readable one that was there. */
    method WriteSpaceFirmware(rec: Record) returns (code: Code)
      modifies `space, `clears, `lost, `faults, `exhausted
      ensures Between() && MayLeave(old(space), Sealed(rec), space)
      ensures code == Success ==> space.Stored? && Readable(space.rec)
      ensures code == Success && lost == old(lost) ==> space == Stored(Sealed(rec))
      ensures exhausted == old(exhausted) ==> clears == old(clears)
      ensures faults == old(faults) ==> code == Success && space == Stored(Sealed(rec)) && Quiet()
    {
      var r := AtLeastTwo(rec).(crcGood := true);
      var attempts := 3;
      while attempts > 0
        invariant Between() && MayLeave(old(space), Sealed(rec), space)
        invariant lost == old(lost) && attempts < 3 ==> space == Stored(Sealed(rec)) || Unreadable(space)
        invariant exhausted == old(exhausted) ==> clears == old(clears)
        invariant if attempts < 3 then faults > old(faults) else Quiet()
      {
        attempts := attempts - 1;
        code := SafeWrite(r);
        if code != Success { return; }
        var back;
        code, back := ReadSpaceFirmware();
        if code == Success { return; }
      }
      code := CorruptedState;
    }

    /** One try to make the space; what it holds at first is anything. */
    method TlclDefineSpace() returns (code: Code)
      modifies `space, `faults, `exhausted
      ensures Between() && (code == Success <==> faults == old(faults)) && (code == Success ==> space.Stored?)
      ensures code != Success ==> space == old(space)
      ensures exhausted == old(exhausted) + if code == MaxNvWrites then 1 else 0
    {
      code := *;
      if code == Success {
        var junk: Record := *;
        space := Stored(junk);
      } else {
        faults := faults + 1;
      }
      if code == MaxNvWrites { exhausted := exhausted + 1; }
    }

    method SafeDefineSpace() returns (code: Code)
      modifies `space, `clears, `faults, `exhausted
      ensures Between() && (exhausted == old(exhausted) ==> clears == old(clears))
      ensures faults == old(faults) ==> code == Success && space.Stored? && Quiet()
    {
      code := TlclDefineSpace();
      if code == MaxNvWrites {
        code := TPMClearAndReenable();
        if code != Success { return; }
        code := TlclDefineSpace();
      }
    }

    method OneTimeInitializeTPM() returns (code: Code, rec: Record)
      modifies `space, `clears, `lost, `faults, `exhausted
      ensures Between()
      ensures code != Success ==> space == old(space) || clears > old(clears)
      ensures code == Success ==> clears > old(clears) && space.Stored? && Readable(space.rec)
      ensures code == Success ==> rec == Record(ROLLBACK_SPACE_FIRMWARE_VERSION, FRESH_FLAGS, 0, true)
      ensures code == Success && lost == old(lost) ==> space == Stored(rec)
      ensures faults == old(faults) ==> code == Success && lost == old(lost)
    {
      rec := Record(ROLLBACK_SPACE_FIRMWARE_VERSION, FRESH_FLAGS, 0, false);
      var ok := Command();  // self test
      if !ok { return OtherError, rec; }
      ok := Command();      // permanent flags
      if !ok { return OtherError, rec; }
      ok := Command();      // physical presence, if it is not final
      if !ok { return OtherError, rec; }
      ok := Command();      // locking, if it is not on
      if !ok { return OtherError, rec; }
      code := TPMClearAndReenable();
      if code != Success { return; }
      ok := Command();      // the kernel space, which is apart from the firmware space
      if !ok { return OtherError, rec; }
      code := SafeDefineSpace();
      if code != Success { return; }
      code := WriteSpaceFirmware(rec);
      rec := Sealed(rec);
    }

    // ---------- the operations ----------

    /** The virtual developer switch. */
    method SetVirtualDevMode(on: bool) returns (ok: bool)
      requires Inv()
      modifies this
      ensures Inv() && Between()
      ensures ok ==> old(space).Stored? && Readable(old(space.rec)) && space.Stored? && Readable(space.rec)
      ensures ok && lost == old(lost) ==>
                var was := old(space.rec);
                space == Stored(Record(if was.version < 2 then 2 else was.version,
                                       Flags(was.flags.last, on, was.flags.other), was.fwVersions, true))
      ensures exhausted == old(exhausted) ==> clears == old(clears)
      ensures faults == old(faults) && old(space).Stored? && Readable(old(space.rec)) ==> ok && lost == old(lost)
    {
      var code, rec := ReadSpaceFirmware();
      if code != Success { return false; }
      rec := rec.(flags := rec.flags.(virtual := on));
      code := WriteSpaceFirmware(rec);
      ok := code == Success;
    }

    method RollbackFirmwareWrite(version: nat) returns (code: Code)
      requires Inv()
      modifies this
      ensures Inv() && Between()
      ensures code == Success && lost == old(lost) ==>
                old(space).Stored? &&
                var was := old(space.rec);
                space == Stored(Record(if was.version < 2 then 2 else was.version, was.flags, version, true))
      ensures exhausted == old(exhausted) ==> clears == old(clears)
      ensures faults == old(faults) && old(space).Stored? && Readable(old(space.rec)) ==>
                code == Success && lost == old(lost)
    {
      var rec;
      code, rec := ReadSpaceFirmware();
      if code != Success { return; }
      code := WriteSpaceFirmware(rec.(fwVersions := version));
    }

    /** Boots. If a successful boot finds another mode than the last successful one, the owner has
        been cleared since that one started; and since it ended, unless one of its writes was lost.
        A boot in the mode of the record that is not asked to clear the owner leaves it alone, but for a
        write that ran out; and a boot without faults succeeds. */
    method SetupTPM(developerSwitch: bool, disable: bool, clearRequest: bool) returns (code: Code, developer: bool)
      requires Inv()
      modifies this
      ensures Inv() && clears >= old(clears)
      ensures code != Success ==> Between()
      ensures code == Success ==>
                lastMode == Some(developer) && clearsBefore == old(clears) && clearsAfter == clears &&
                lossy == (lost > old(lost))
      ensures code == Success && old(lastMode).Some? && old(lastMode).value != developer ==>
                clears > old(clearsBefore) && (clears > old(clearsAfter) || old(lossy))
      ensures code == Success && old(space).Stored? ==>
                var found := old(space.rec.flags);
                (old(space.rec.version) < 2 || old(space.rec.crcGood)) &&
                developer == (developerSwitch || (found.virtual && !disable)) &&
                (developer != found.last || clearRequest ==> clears > old(clears)) &&
                (lost == old(lost) ==>
                   space.Stored? && space.rec.flags == Flags(developer, found.virtual && !disable, found.other) &&
                   space.rec.fwVersions == old(space.rec.fwVersions))
      ensures code == Success && old(space).Missing? ==>
                developer == developerSwitch && clears > old(clears) &&
                (lost == old(lost) ==>
                   space.Stored? && space.rec.flags == Flags(developer, false, 0) && space.rec.fwVersions == 0)
      ensures old(space).Stored? && !clearRequest ==>
                var found := old(space.rec.flags);
                (developerSwitch || (found.virtual && !disable)) == found.last ==>
                  (exhausted == old(exhausted) ==> clears == old(clears)) &&
                  (!(found.virtual && disable) ==> clears == old(clears) && space == old(space))
      ensures faults == old(faults) && (old(space).Stored? ==> old(space.rec.version) < 2 || old(space.rec.crcGood)) ==>
                code == Success && lost == old(lost)
      ensures faults == old(faults) && old(space).Stored? && (old(space.rec.version) < 2 || old(space.rec.crcGood)) ==>
                clears == old(clears) + if developer != old(space.rec.flags).last || clearRequest then 1 else 0
    {
      developer := developerSwitch;
      code := StartTpm();
      if code != Success { return; }
      code, developer := BootRecord(developerSwitch, disable, clearRequest);
      if code == Success {
        lastMode, clearsBefore, clearsAfter, lossy := Some(developer), old(clears), clears, lost > old(lost);
      }
    }

    /** Reads the record, clears the owner if it has to be, and writes the record back if its flags
        change. Without a clearing the mode it remembers stays the same, however the write ends. */
    method BootRecord(developerSwitch: bool, disable: bool, clearRequest: bool) returns (code: Code, developer: bool)
      modifies `space, `clears, `lost, `faults, `exhausted
      ensures Between()
      ensures clears == old(clears) ==> forall m: bool | old(Remembers(m)) :: Remembers(m)
      ensures code == Success && (clears == old(clears) || lost == old(lost)) ==> Remembers(developer)
      ensures code == Success && old(space).Stored? ==>
                var d := Decide(old(space.rec.flags), developerSwitch, disable, clearRequest);
                Readable(old(space.rec)) && developer == d.developer && (d.clear ==> clears > old(clears)) &&
                (lost == old(lost) ==>
                   space.Stored? && space.rec.flags == d.flags && space.rec.fwVersions == old(space.rec.fwVersions))
      ensures code == Success && old(space).Missing? ==>
                developer == developerSwitch && clears > old(clears) &&
                (lost == old(lost) ==>
                   space.Stored? && space.rec.flags == Flags(developer, false, 0) && space.rec.fwVersions == 0)
      ensures old(space).Stored? && !clearRequest ==>
                var found := old(space.rec.flags);
                (developerSwitch || (found.virtual && !disable)) == found.last ==>
                  (exhausted == old(exhausted) ==> clears == old(clears)) &&
                  (!(found.virtual && disable) ==> clears == old(clears) && space == old(space))
      ensures faults == old(faults) && (old(space).Stored? ==> old(space.rec.version) < 2 || old(space.rec.crcGood)) ==>
                code == Success && lost == old(lost)
      ensures faults == old(faults) && old(space).Stored? && (old(space.rec.version) < 2 || old(space.rec.crcGood)) ==>
                clears == old(clears) + if developer != old(space.rec.flags).last || clearRequest then 1 else 0
    {
      developer := developerSwitch;
      var rec;
      code, rec := LoadRecord();
      if code != Success { return; }
      var inFlags := rec.flags;
      if disable { rec := rec.(flags := rec.flags.(virtual := false)); }
      if rec.flags.virtual { developer := true; }
      code := ClearOwnerIf(developer != inFlags.last, clearRequest);
      if code != Success { return; }
      rec := rec.(flags := rec.flags.(last := developer));
      assert rec.flags == Decide(inFlags, developerSwitch, disable, clearRequest).flags;
      if rec.flags != inFlags {
        code := WriteSpaceFirmware(rec);
        if code != Success { return; }
      }
      code := Success;
    }

    /** The record, which is made if the space is missing. */
    method LoadRecord() returns (code: Code, rec: Record)
      modifies `space, `clears, `lost, `faults, `exhausted
      ensures Between() && (code != Success ==> space == old(space) || clears > old(clears))
      ensures old(space).Stored? ==> space == old(space) && Quiet()
      ensures code == Success && old(space).Stored? ==> Readable(space.rec) && rec == AtLeastTwo(space.rec)
      ensures code == Success && old(space).Missing? ==>
                clears > old(clears) && space.Stored? && rec == Record(2, FRESH_FLAGS, 0, true) &&
                (lost == old(lost) ==> space == Stored(rec))
      ensures faults == old(faults) && (old(space).Stored? ==> old(space.rec.version) < 2 || old(space.rec.crcGood)) ==>
                code == Success && lost == old(lost)
    {
      code, rec := ReadSpaceFirmware();
      if code == BadIndex {
        code, rec := OneTimeInitializeTPM();
      } else if code != Success {
        code := CorruptedState;
      }
    }

    /** Clears the owner if the mode has changed or it is asked to, and only then. */
    method ClearOwnerIf(changed: bool, clearRequest: bool) returns (code: Code)
      modifies `clears, `faults
      ensures Between() && (code == Success <==> faults == old(faults))
      ensures if changed || clearRequest then code == Success ==> clears == old(clears) + 1
              else code == Success && clears == old(clears)
    {
      code := Success;
      if changed {
        code := TPMClearAndReenable();
      } else if clearRequest {
        code := TPMClearAndReenable();
      }
    }

    /** Everything before the record is read. */
    method StartTpm() returns (code: Code)
      modifies `faults
      ensures faults >= old(faults) && (faults == old(faults) ==> code == Success)
    {
      var ok := Command();  // library
      if !ok { return OtherError; }
      ok := Command();      // startup
      if !ok { return OtherError; }
      ok := Command();      // physical presence
      if !ok {
        ok := Command();
        if !ok { return OtherError; }
        ok := Command();
        if !ok { return OtherError; }
      }
      ok := Command();      // flags
      if !ok { return OtherError; }
      var enabled := Command();
      if !enabled {
        ok := Command();
        if !ok { return OtherError; }
        ok := Command();
        if !ok { return OtherError; }
        return MustReboot;
      }
      code := Success;
    }
  }

  /** When the write of a boot is lost, the next boot starts from the same record, but for the
      virtual switch.  Exactly which mode changes then go unseen, without clearing the owner: those
      back to the mode in the record, when the clearing is not asked for. */
  lemma LostWriteIsMissed(found: Flags, d1: bool, off1: bool, c1: bool, d2: bool, off2: bool, c2: bool, virtual: bool)
    ensures var first := Decide(found, d1, off1, c1);
            var second := Decide(found.(virtual := virtual), d2, off2, c2);
            first.developer != second.developer && !second.clear <==>
            first.developer != found.last && second.developer == found.last && !c2
  {
  }

  /** Such runs exist: a boot into developer mode on a fresh record, and then one into normal mode. */
  lemma LostWriteHappens()
    ensures var first, second := Decide(FRESH_FLAGS, true, false, false), Decide(FRESH_FLAGS, false, false, false);
            first.developer && first.clear && first.flags != FRESH_FLAGS &&
            !second.developer && !second.clear && second.flags == FRESH_FLAGS
  {
    LostWriteIsMissed(FRESH_FLAGS, true, false, false, false, false, false, false);
  }

  /** When the record is what the last boot decided, the next boot clears the owner exactly if the
      mode has changed or it is asked to. */
  lemma ClearsOnChange(found: Flags, d1: bool, off1: bool, c1: bool, d2: bool, off2: bool, c2: bool, virtual: bool)
    ensures var first := Decide(found, d1, off1, c1);
            var second := Decide(first.flags.(virtual := virtual), d2, off2, c2);
            second.clear <==> first.developer != second.developer || c2
  {
  }
}
