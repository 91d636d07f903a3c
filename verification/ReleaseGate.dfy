/** The dependency gate of a release: the inventory, the pins and the advisories together. */
module ReleaseGate {
  import opened Bytes
  import opened Json
  import opened Inventory
  import opened SecurityPins
  import opened DependencyAudit

  /** The rows that are audited. */
  function RowsToAudit(list: seq<Package>): (rows: seq<Row>)
    ensures |rows| == |list|
    ensures forall i :: 0 <= i < |list| ==> rows[i] == Row(list[i].name, list[i].version)
  {
    seq(|list|, i requires 0 <= i < |list| => Row(list[i].name, list[i].version))
  }

  /** Everything is in order. */
  ghost predicate Released(service: Service, locks: seq<Lock>, pinLines: seq<string>)
  {
    && Merged(AllLines(locks)).Some?
    && var list := Merged(AllLines(locks)).value;
       && PolicyKept(pinLines, list)
       && Audit(service, RowsToAudit(list)).Some? && AllEmpty(Audit(service, RowsToAudit(list)).value)
  }

  /** The whole command: any failure is 2, an advisory is 1, and 0 is everything in order. */
  method RunGate(service: Service, locks: seq<Lock>, pinLines: seq<string>) returns (status: int)
    ensures status == 0 || status == 1 || status == 2
    ensures status == 2 <==>
      || Merged(AllLines(locks)).None?
      || !PolicyKept(pinLines, Merged(AllLines(locks)).value)
      || Audit(service, RowsToAudit(Merged(AllLines(locks)).value)).None?
    ensures status == 0 <==> Released(service, locks, pinLines)
  {
    hide Merged, PolicyKept, Audit;
    var list := ReadLocks(locks);
    if list.None? {
      return 2;
    }
    var kept := CheckPolicy(pinLines, list.value);
    if !kept {
      return 2;
    }
    status := Gate(service, RowsToAudit(list.value));
  }

  /**
   For any service, a release passes exactly when every lock line is good and something is locked,
   every pin is listed and nowhere at another version, and every listed package was read, from the
   page its batch was answered with to its last page, without an advisory.
   */
  lemma ReleasedExactlyWhen(service: Service, locks: seq<Lock>, pinLines: seq<string>)
    ensures Released(service, locks, pinLines) <==>
      && NoneMalformed(AllLines(locks)) && SomethingLocked(AllLines(locks)) && Merged(AllLines(locks)).Some?
      && PolicyKept(pinLines, Merged(AllLines(locks)).value)
      && var rows := RowsToAudit(Merged(AllLines(locks)).value);
         forall i :: 0 <= i < |rows| ==> CleanInBatch(service, rows, i)
  {
    hide Merged, PolicyKept, Audit, CleanInBatch, AllEmpty, NoneMalformed, SomethingLocked;
    MergedExactlyWhen(AllLines(locks));
    if Merged(AllLines(locks)).Some? {
      GateOpensExactlyWhen(service, RowsToAudit(Merged(AllLines(locks)).value));
    }
  }
}
