/** The audit record persisted by the engine: one changed field of one
    instance of a tracked entity. */
module Jpa {
  import opened JavaLang

  /** The four values that the engine passes to the record's constructor:
      what one audit row says. */
  datatype Row = Row(entityName: string, fieldName: string, entityId: long, state: Option<string>)

  /** The argument of equals(Object): null, an EntityAudit, or an object of
      any other runtime class (a subclass instance included, since equals
      compares getClass()). */
  datatype ObjectRef = NullRef | AuditRef(audit: EntityAudit) | OtherClassRef
  {
    function Footprint(): set<EntityAudit>
    {
      if AuditRef? then {audit} else {}
    }
  }

  class EntityAudit {
    /** The surrogate key that the store assigns; null until then. */
    var id: Option<long>
    var entityName: string
    var fieldName: string
    var entityId: long
    /** The new value of the field as text; null when the field became null. */
    var state: Option<string>
    /** The creation time, in milliseconds; the clock is a parameter. */
    var eventTime: int

    /** The four-argument constructor; the time is what new Date() read. */
    constructor (entityName: string, fieldName: string, entityId: long, state: Option<string>, eventTime: int)
      ensures this.entityName == entityName && this.fieldName == fieldName
      ensures this.entityId == entityId && this.state == state
      ensures this.eventTime == eventTime && this.id == None
    {
      this.id := None;
      this.entityName := entityName;
      this.fieldName := fieldName;
      this.entityId := entityId;
      this.state := state;
      this.eventTime := eventTime;
    }

    /** The constructor arguments as a value. */
    function AsRow(): Row
      reads this
    {
      Row(entityName, fieldName, entityId, state)
    }

    method SetId(id: Option<long>)
      modifies this
      ensures this.id == id
      ensures entityName == old(entityName) && fieldName == old(fieldName) && entityId == old(entityId)
      ensures state == old(state) && eventTime == old(eventTime)
    {
      this.id := id;
    }

    method SetEntityName(entityName: string)
      modifies this
      ensures this.entityName == entityName
      ensures id == old(id) && fieldName == old(fieldName) && entityId == old(entityId)
      ensures state == old(state) && eventTime == old(eventTime)
    {
      this.entityName := entityName;
    }

    method SetFieldName(fieldName: string)
      modifies this
      ensures this.fieldName == fieldName
      ensures id == old(id) && entityName == old(entityName) && entityId == old(entityId)
      ensures state == old(state) && eventTime == old(eventTime)
    {
      this.fieldName := fieldName;
    }

    method SetEntityId(entityId: long)
      modifies this
      ensures this.entityId == entityId
      ensures id == old(id) && entityName == old(entityName) && fieldName == old(fieldName)
      ensures state == old(state) && eventTime == old(eventTime)
    {
      this.entityId := entityId;
    }

    method SetState(state: Option<string>)
      modifies this
      ensures this.state == state
      ensures id == old(id) && entityName == old(entityName) && fieldName == old(fieldName)
      ensures entityId == old(entityId) && eventTime == old(eventTime)
    {
      this.state := state;
    }

    method SetEventTime(eventTime: int)
      modifies this
      ensures this.eventTime == eventTime
      ensures id == old(id) && entityName == old(entityName) && fieldName == old(fieldName)
      ensures entityId == old(entityId) && state == old(state)
    {
      this.eventTime := eventTime;
    }

    /** hashCode(): 0 for a null id, the id's Long.hashCode() otherwise; an
        id that fits in an int hashes to itself when it is non-negative and
        to its bitwise complement when it is negative. */
    function HashCode(): (h: int32)
      reads this
      ensures id.None? ==> h == 0
      ensures id.Some? ==> h == LongHashCode(id.value)
      ensures id.Some? && 0 <= id.value < 0x8000_0000 ==> h == id.value
      ensures id.Some? && -0x8000_0000 <= id.value < 0 ==> h == -1 - id.value
    {
      match id
      case None => 0
      case Some(v) =>
        if -0x8000_0000 <= v < 0x8000_0000 then LongHashCodeOfInt(v); LongHashCode(v)
        else LongHashCode(v)
    }

    /** equals(Object): true for the same reference, false for null and for
        another class, and otherwise whether the two ids are equal, two null
        ids included. */
    function Equals(o: ObjectRef): (r: bool)
      reads this, o.Footprint()
      ensures o == AuditRef(this) ==> r
      ensures o.NullRef? || o.OtherClassRef? ==> !r
      ensures o.AuditRef? ==> (r <==> id == o.audit.id)
    {
      if o == AuditRef(this) then true
      else match o
        case NullRef => false
        case OtherClassRef => false
        case AuditRef(that) =>
          !(if id.Some? then !(that.id.Some? && id.value == that.id.value) else that.id.Some?)
    }
  }

  /** equals() and hashCode() agree: equal audits have equal hash codes. */
  lemma EqualsImpliesSameHashCode(a: EntityAudit, b: EntityAudit)
    requires a.Equals(AuditRef(b))
    ensures a.HashCode() == b.HashCode()
  {
  }

  /** equals() is symmetric and transitive on audits. */
  lemma EqualsIsEquivalence(a: EntityAudit, b: EntityAudit, c: EntityAudit)
    ensures a.Equals(AuditRef(b)) == b.Equals(AuditRef(a))
    ensures a.Equals(AuditRef(b)) && b.Equals(AuditRef(c)) ==> a.Equals(AuditRef(c))
  {
  }
}
