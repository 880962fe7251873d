/** The persistence session as the engine sees it: a log of saved audit
    records that session.save appends to. */
module Session {
  import opened Jpa

  class AuditLog {
    /** The saved records, oldest first. */
    var entries: seq<EntityAudit>

    constructor ()
      ensures entries == []
    {
      entries := [];
    }

    /** The records from position n on are exactly as many as rs and hold
        the rows of rs, in order. */
    ghost predicate SavedFrom(n: nat, rs: seq<Row>)
      reads this, entries
    {
      n + |rs| == |entries| && forall k :: 0 <= k < |rs| ==> entries[n + k].AsRow() == rs[k]
    }

    /** The records from position n on are distinct objects, none of which
        is in earlier. */
    ghost predicate DistinctFrom(n: nat, earlier: seq<EntityAudit>)
      reads this
    {
      (forall k :: n <= k < |entries| ==> entries[k] !in earlier) &&
      (forall j, k :: n <= j < k < |entries| ==> entries[j] != entries[k])
    }

    /** session.save: the record joins the end of the log. */
    method Save(audit: EntityAudit)
      modifies this
      ensures entries == old(entries) + [audit]
    {
      entries := entries + [audit];
    }
  }
}
