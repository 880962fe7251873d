# Field-level change audit engine

This project models the change-audit engine of an order-tracking service
and proves properties of the model. The engine is a Hibernate event
listener. After an insert, before an update and before a delete, it gets
three things from the event: the entity's property names, an old state
array and a new state array (the old one is missing on insert, the new one
on delete). It then walks the properties in order. For each property that
is a declared field carrying the `@Audited` marker, and whose old and new
values differ under null-safe equality, it saves one `EntityAudit` record
to the session. The record holds the entity name (the `@Table` name, else
the class name), the field name (the `@Column` name, else the Java name),
the entity id as a `long`, and the new value as text (null when the value
became null).

The model has four modules:

- `JavaLang`: nullable references (`Option`) and exceptions as results (`Result`); Java's `long` and `int` as subset types; `Number.longValue` as 64-bit wrap-around; `Long.hashCode` as the exclusive or of the two 32-bit halves; `Objects.equals` and `Objects.toString`.
- `Jpa`: the audit record as a class `EntityAudit` with mutable fields, its constructor, setters, `equals` and `hashCode`, and `Row`, the four values a record is built from.
- `Session`: the session as an `AuditLog` whose `Save` appends a record. The predicate `SavedFrom` says which rows the records from a given position on hold.
- `Hibernate`: the engine. Reflection and annotations are replaced by a static `EntitySchema`. The per-field decision is the function `FieldChange`. The loop is a fold `Run` over the fields' outcomes, and `Audit` is the whole event. The methods `AuditFieldChangeIfNeed` and `AuditEntityChanges` run the same steps over an `AuditLog`, with a real `while` loop, and are proved against `Audit`. The three listener entry points are thin adapters over it.

An independent description of which fields produce rows sits beside the
engine: `Readable`, `Qualifies`, `ExpectedRow` and `ExpectedRows`. They
are written straight from the field policy, without the fold. The lemmas
connect the engine to that description.

In two places the code is narrower than the general rule "every audited
field that changed is saved" suggests, and the model follows the code:

- The id is checked only once a field qualifies. An event with a null or non-numeric id, in which no field qualifies, succeeds and saves nothing (`EntityAuditListener.java` lines 93-103).
- A delete passes no new state, so every new value is null. A field therefore qualifies only when its old value was non-null. A delete audits the eligible fields whose last value was non-null, each with a null state, and not every eligible field.

An exception ends the walk. The rows saved before it stay in the log;
undoing them is the store's transaction rollback, which is not modelled.

## Model

| member | source | states |
|---|---|---|
| JavaLang.LongValue | shared/src/main/java/com/epages/microservice/handson/hibernate/EntityAuditListener.java:107 | the result is a `long` congruent to the number modulo 2^64, and equals it when the number fits in a `long` |
| JavaLang.LongHashCodeOfInt | shared/src/main/java/com/epages/microservice/handson/shared/jpa/EntityAudit.java:99 | the `Long.hashCode` of an id that fits in an `int` is the id itself when non-negative, and its bitwise complement `-1 - v` when negative |
| JavaLang.ObjectsEquals | shared/src/main/java/com/epages/microservice/handson/hibernate/EntityAuditListener.java:93 | null-safe equality: true exactly when both are null or both hold equal values |
| Jpa.EntityAudit.constructor | shared/src/main/java/com/epages/microservice/handson/shared/jpa/EntityAudit.java:41-47 | entity name, field name, entity id and state are stored exactly as passed, the event time is the given clock reading, and the id is left null |
| Jpa.EntityAudit.SetId | shared/src/main/java/com/epages/microservice/handson/shared/jpa/EntityAudit.java:53-55 | the id becomes the argument and every other field keeps its value |
| Jpa.EntityAudit.SetEntityName | shared/src/main/java/com/epages/microservice/handson/shared/jpa/EntityAudit.java:61-63 | the entity name becomes the argument and every other field keeps its value |
| Jpa.EntityAudit.SetFieldName | shared/src/main/java/com/epages/microservice/handson/shared/jpa/EntityAudit.java:69-71 | the field name becomes the argument and every other field keeps its value |
| Jpa.EntityAudit.SetEntityId | shared/src/main/java/com/epages/microservice/handson/shared/jpa/EntityAudit.java:77-79 | the entity id becomes the argument and every other field keeps its value |
| Jpa.EntityAudit.SetState | shared/src/main/java/com/epages/microservice/handson/shared/jpa/EntityAudit.java:85-87 | the state becomes the argument and every other field keeps its value |
| Jpa.EntityAudit.SetEventTime | shared/src/main/java/com/epages/microservice/handson/shared/jpa/EntityAudit.java:93-95 | the event time becomes the argument and every other field keeps its value |
| Jpa.EntityAudit.HashCode | shared/src/main/java/com/epages/microservice/handson/shared/jpa/EntityAudit.java:97-100 | 0 for a null id. An id that fits in an `int` hashes to itself when non-negative and to its bitwise complement `-1 - v` when negative; any other id hashes to its `Long.hashCode` (proved consistent with `equals` by `EqualsImpliesSameHashCode`) |
| JavaLang.LongHashCode | shared/src/main/java/com/epages/microservice/handson/shared/jpa/EntityAudit.java:99 | its property is stated by `JavaLang.LongHashCodeOfInt`: on ids in `int` range it is the identity or the bitwise complement |
| Jpa.EntityAudit.Equals | shared/src/main/java/com/epages/microservice/handson/shared/jpa/EntityAudit.java:102-114 | true for the same reference; false for null and for an object of another class; for another audit, true exactly when the two ids are equal, two null ids included |
| Jpa.EqualsImpliesSameHashCode | shared/src/main/java/com/epages/microservice/handson/shared/jpa/EntityAudit.java:97-114 | two audits that are equal by `equals` have the same `hashCode` |
| Jpa.EqualsIsEquivalence | shared/src/main/java/com/epages/microservice/handson/shared/jpa/EntityAudit.java:102-114 | on audits, `equals` is symmetric and transitive |
| Session.AuditLog.Save | shared/src/main/java/com/epages/microservice/handson/hibernate/EntityAuditListener.java:109 | `session.save` adds exactly that record at the end of the log; earlier records stay as they were |
| Hibernate.DeclaredField | shared/src/main/java/com/epages/microservice/handson/hibernate/EntityAuditListener.java:90 | a found field is a declared field with that name; nothing is found exactly when no declared field has that name |
| Hibernate.EntityName | shared/src/main/java/com/epages/microservice/handson/hibernate/EntityAuditListener.java:105 | its property is stated by `Hibernate.FieldChangeCases`: the rows carry the `@Table` name, else the class name |
| Hibernate.AuditedFieldName | shared/src/main/java/com/epages/microservice/handson/hibernate/EntityAuditListener.java:106 | its property is stated by `Hibernate.FieldChangeCases`: the rows carry the `@Column` name, else the field name |
| Hibernate.ValueAt | shared/src/main/java/com/epages/microservice/handson/hibernate/EntityAuditListener.java:72-73 | its property is stated by `Hibernate.StepAtCases`: a missing state array reads as null, and a too-short one raises the index exception for that index |
| Hibernate.FieldChange | shared/src/main/java/com/epages/microservice/handson/hibernate/EntityAuditListener.java:83-110 | its property is stated by `Hibernate.FieldChangeCases` |
| Hibernate.StepAt | shared/src/main/java/com/epages/microservice/handson/hibernate/EntityAuditListener.java:71-76 | its property is stated by `Hibernate.StepAtCases`, including which exception an unreadable field raises |
| Hibernate.Run | shared/src/main/java/com/epages/microservice/handson/hibernate/EntityAuditListener.java:70-80 | the loop saves at most one row per field; its success and failure are stated by `Hibernate.RunSpec` and `Hibernate.RunFailRows` |
| Hibernate.Audit | shared/src/main/java/com/epages/microservice/handson/hibernate/EntityAuditListener.java:56-81 | an event saves at most one row per property; no properties save nothing. What it saves and raises, on success and on failure, is stated by `Hibernate.AuditMatchesQualifying` and `Hibernate.AuditFailsAtFirstBadField` |
| Hibernate.FieldChangeCases | shared/src/main/java/com/epages/microservice/handson/hibernate/EntityAuditListener.java:90-109 | an undeclared field is exactly the `NoSuchField` exception. A row is produced exactly when the field is audited, its values differ and the id is a Number. The row holds the `@Table` name or the class name, the `@Column` name or the field name, the id's `longValue`, and the new value as text or null. Any other exception is the null-id or non-Number-id one, raised only for an audited field whose values differ |
| Hibernate.StepAtCases | shared/src/main/java/com/epages/microservice/handson/hibernate/EntityAuditListener.java:71-76 | field i raises an exception exactly when it cannot be read or it qualifies under a bad id. An unreadable field raises the index exception for i when a present state array is too short, and otherwise the missing-field exception (the `IllegalStateException` wrapping `NoSuchFieldException`); a readable one raises the null-id or non-Number-id exception. It yields a row exactly when it qualifies under a Number id, and that row is its expected row |
| Hibernate.RunSpec | shared/src/main/java/com/epages/microservice/handson/hibernate/EntityAuditListener.java:70-80 | the loop saves a prefix of all the fields' rows. It succeeds exactly when no field raises, and then it saves all of them. When it fails, the exception is that of the first failing field |
| Hibernate.RunFailRows | shared/src/main/java/com/epages/microservice/handson/hibernate/EntityAuditListener.java:70-80 | a failing loop stops at a field whose outcome is the exception raised; every field before it is Ok, and the rows saved are exactly those of the fields before it |
| Hibernate.RunStops | shared/src/main/java/com/epages/microservice/handson/hibernate/EntityAuditListener.java:70-80 | once an exception is raised, the later fields change nothing |
| Hibernate.ExpectedRowsOrigin | shared/src/main/java/com/epages/microservice/handson/hibernate/EntityAuditListener.java:93-109 | every expected row is the row of a qualifying field; there are at most as many rows as fields; and there are none when no field qualifies |
| Hibernate.SavedAt | shared/src/main/java/com/epages/microservice/handson/hibernate/EntityAuditListener.java:71-109 | field i adds its expected row to the log exactly when it qualifies under a Number id, and nothing otherwise |
| Hibernate.SavedAreQualifying | shared/src/main/java/com/epages/microservice/handson/hibernate/EntityAuditListener.java:70-109 | under a Number id, the rows that the fields produce are exactly the expected rows of the qualifying fields, in field order; under any other id, there are none |
| Hibernate.OutcomesAllOk | shared/src/main/java/com/epages/microservice/handson/hibernate/EntityAuditListener.java:70-103 | no field raises exactly when every field can be read and either the id is a Number or no field qualifies |
| Hibernate.AuditSucceedsIff | shared/src/main/java/com/epages/microservice/handson/hibernate/EntityAuditListener.java:70-103 | an event with fields succeeds exactly when every field can be read and either the id is a Number or no field qualifies |
| Hibernate.OutcomesPrefix | shared/src/main/java/com/epages/microservice/handson/hibernate/EntityAuditListener.java:70 | the outcomes of the first k fields begin the outcomes of any longer run of fields |
| Hibernate.OkBeforeIsReadable | shared/src/main/java/com/epages/microservice/handson/hibernate/EntityAuditListener.java:70-103 | when the first k fields raise nothing, each of them can be read, and under an id that is not a Number none of them qualifies |
| Hibernate.AuditFailsAtFirstBadField | shared/src/main/java/com/epages/microservice/handson/hibernate/EntityAuditListener.java:70-109 | a failing event with properties stops at one field. Every field before it can be read, and under a bad id none of them qualifies. That field cannot be read, or qualifies under a bad id. The exception is that field's read error (index or missing field) when it cannot be read, and otherwise the null-id or non-Number-id one. The rows saved are the expected rows of the fields before it under a Number id, and none otherwise |
| Hibernate.AuditSavesExpected | shared/src/main/java/com/epages/microservice/handson/hibernate/EntityAuditListener.java:70-109 | an event with fields saves at most one row per field. Under a Number id it saves a prefix of the expected rows in field order, and all of them on success. Under any other id it saves none |
| Hibernate.AuditMatchesQualifying | shared/src/main/java/com/epages/microservice/handson/hibernate/EntityAuditListener.java:56-110 | one event saves at most one row per field. It succeeds exactly when every field can be read and either the id is a Number or no field qualifies. Under a Number id, the rows are the expected rows in field order: all of them on success, and on failure those of the fields before the first field that cannot be read. Under any other id, no row is saved |
| Hibernate.ReadableEventFailsOnlyOnId | shared/src/main/java/com/epages/microservice/handson/hibernate/EntityAuditListener.java:97-103 | when every field can be read, the only exception an event can raise is the null-id or non-Number-id one |
| Hibernate.NoFieldsIsFatal | shared/src/main/java/com/epages/microservice/handson/hibernate/EntityAuditListener.java:62-68 | a null or empty property list raises the no-fields exception and saves nothing |
| Hibernate.IdCheckedOnlyOnChange | shared/src/main/java/com/epages/microservice/handson/hibernate/EntityAuditListener.java:93-103 | when every field can be read and none qualifies, the event succeeds and saves nothing, whatever the id |
| Hibernate.BadIdSavesNothing | shared/src/main/java/com/epages/microservice/handson/hibernate/EntityAuditListener.java:97-103 | a null or non-Number id never saves a row. If every field can be read and one qualifies, the event raises the exception for that id |
| Hibernate.InsertAuditsNonNullValues | shared/src/main/java/com/epages/microservice/handson/hibernate/EntityAuditListener.java:47-54 | an insert has no old state, so the old values are null. A readable field qualifies exactly when it is audited and its new value is non-null, and every row an insert saves has a non-null state |
| Hibernate.DeleteAuditsNonNullValues | shared/src/main/java/com/epages/microservice/handson/hibernate/EntityAuditListener.java:27-35 | a delete has no new state. A readable field qualifies exactly when it is audited and its old value is non-null, and every row it saves has a null state |
| Hibernate.AuditFieldChangeIfNeed | shared/src/main/java/com/epages/microservice/handson/hibernate/EntityAuditListener.java:83-110 | raises what `FieldChange` raises, or else appends one new record exactly when `FieldChange` yields a row, and no other. The record holds that row, a null id and the event's time, and it is not a record already in the log; earlier records are untouched |
| Hibernate.AuditFieldAt | shared/src/main/java/com/epages/microservice/handson/hibernate/EntityAuditListener.java:71-79 | one loop iteration: it raises what `StepAt` raises, and appends exactly the row of `StepAt`, if any, after the rows already saved since a given position, with a null id and the event's time. The records from that position stay distinct and none of them is among the records logged before it |
| Hibernate.AuditFields | shared/src/main/java/com/epages/microservice/handson/hibernate/EntityAuditListener.java:70-80 | the loop raises the exception of `Run` over all fields and appends exactly its records, one per row of `Run` and holding that row, in order. The log only grows, earlier records stay, and every new record is fresh, with a null id and the event's time. The new records are distinct objects, none already in the log |
| Hibernate.AuditEntityChanges | shared/src/main/java/com/epages/microservice/handson/hibernate/EntityAuditListener.java:56-81 | the method raises `Audit`'s exception and appends exactly one record per row of `Audit`, holding that row, in order. The log only grows, earlier records stay, and every new record is fresh, with a null id and the event's time. The new records are distinct objects, none already in the log |
| Hibernate.OnPostInsert | shared/src/main/java/com/epages/microservice/handson/hibernate/EntityAuditListener.java:47-54 | audits the new state against no old state: raises `Audit`'s exception and appends one record per row of `Audit`, holding that row, in order; every new record is fresh, with a null id and the event's time. The new records are distinct objects, none already in the log |
| Hibernate.OnPreUpdate | shared/src/main/java/com/epages/microservice/handson/hibernate/EntityAuditListener.java:37-45 | audits the new state against the old one. It returns `false` (never a veto) unless `Audit` raises, and appends one record per row of `Audit`, holding that row, in order; every new record is fresh, with a null id and the event's time. The new records are distinct objects, none already in the log |
| Hibernate.OnPreDelete | shared/src/main/java/com/epages/microservice/handson/hibernate/EntityAuditListener.java:27-35 | audits the deleted state against no new state. It returns `false` (never a veto) unless `Audit` raises, and appends one record per row of `Audit`, holding that row, in order; every new record is fresh, with a null id and the event's time. The new records are distinct objects, none already in the log |

## Left out

- Registration of the listener for the three event types (`HibernateIntegrator.java`): framework wiring. The three adapters stand for the three registrations.
- Reflection and annotation lookup: a static `EntitySchema` lists the mapped class's name, its `@Table` name and its declared fields. Each field carries its `@Audited` marker and its `@Column` name. An annotation without a name is `Some("")`, as `name()` returns the empty string.
- The metamodel lookups (`getPropertyNames`, `getMappedClass`, `getIdentifier`): their results are the fields of the event.
- Hibernate sessions, transactions and rollback, and `requiresPostCommitHanding`: `session.save` is an append to an in-memory log, and rollback is the store's concern.
- `new Date()`: the source reads the clock in the record's constructor, once per saved record (`EntityAudit.java` line 46). The model reads it once per event, as the parameter `now`. That is why every new record of one event has the same `eventTime == now`; in the source, the records of one event can carry different times.
- `EntityAudit` fields `entityName`, `fieldName` and `eventTime` cannot be null in the model, while the Java constructor and setters accept null. The engine never passes null, and the columns are declared `nullable = false` (`EntityAudit.java` lines 23-36).
- Store id generation for saved records: `Save` only appends, so ids stay null.
- `EntityAudit.toString` and the no-argument JPA constructor and getters: not part of the engine's behaviour.
- `Object.toString` of arbitrary values: the uninterpreted parameter `toStr`.
- `equals` of arbitrary values: modelled as Dafny's structural equality on the value type.
- Floating-point `Number` ids (`Double`, `Float`): `Num` holds integral values only, so `longValue`'s truncation of a fraction is not modelled.
- Exception messages built with `String.format`: an error carries the class name or field name it is about, not the text.
- `DeliveryOrderRepositoryTest.java`: an integration test against a live database that checks a different audit mechanism.
- Hibernate.RunSpec: on failure states only that the rows are a prefix; the exact rows are stated by `Hibernate.RunFailRows`.
- Hibernate.AuditSavesExpected: on failure states only that the rows are a prefix; the exact rows are stated by `Hibernate.AuditFailsAtFirstBadField` and `Hibernate.AuditMatchesQualifying`.
