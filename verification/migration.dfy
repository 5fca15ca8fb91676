/**
  The upgrade `loadState` applies to stored participant records: lists saved
  by an older version kept the name as `firstName` and `lastName`; the current
  one keeps a single `fullName`. Reading the storage and parsing JSON are not
  part of this model; only the per-record map is.
 */
module Migration {
  import opened Results
  import opened Text

  /** A participant record as found in storage. A name field is either a
      string or absent (`None`); stored non-string values are not modelled. */
  datatype StoredRecord = StoredRecord(
    id: int,
    fullName: Option<string>,
    firstName: Option<string>,
    lastName: Option<string>,
    pages: int)

  /** JavaScript truthiness of a string field: present and non-empty. */
  predicate Truthy(f: Option<string>) {
    f.Some? && f.value != []
  }

  /** `p.firstName || ''`: the field's text, or the empty string when it is
      absent or empty. */
  function OrEmpty(f: Option<string>): (r: string)
    ensures Truthy(f) ==> r == f.value
    ensures !Truthy(f) ==> r == []
  {
    if f.Some? then f.value else []
  }

  /** A record the upgrade leaves alone: it already has a name, or it has no
      legacy name to build one from. */
  predicate InCurrentFormat(r: StoredRecord) {
    Truthy(r.fullName) || (!Truthy(r.firstName) && !Truthy(r.lastName))
  }

  /** The name the upgrade builds from the legacy fields. */
  function LegacyFullName(r: StoredRecord): string {
    Trim(OrEmpty(r.firstName) + " " + OrEmpty(r.lastName))
  }

  /** The body of the `participants.map` callback in `loadState`. Records in
      the current format come back as they are; a legacy record is rebuilt
      with a trimmed `fullName`, the same id and quota, and no legacy fields. */
  function Migrate(r: StoredRecord): (m: StoredRecord)
    ensures InCurrentFormat(m)
    ensures m.id == r.id && m.pages == r.pages
    ensures InCurrentFormat(r) <==> m == r
    ensures !InCurrentFormat(r) ==> m.fullName == Some(LegacyFullName(r))
    ensures !InCurrentFormat(r) ==> m.firstName.None? && m.lastName.None?
  {
    if !Truthy(r.fullName) && (Truthy(r.firstName) || Truthy(r.lastName)) then
      StoredRecord(r.id, Some(LegacyFullName(r)), None, None, r.pages)
    else
      r
  }

  /** Upgrading an upgraded record changes nothing. */
  lemma MigrateIdempotent(r: StoredRecord)
    ensures Migrate(Migrate(r)) == Migrate(r)
  {
  }

  /** A legacy record whose parts carry no surrounding whitespace gets the
      parts joined by one space; with only one part, that part alone. */
  lemma MigratedNameShape(r: StoredRecord)
    requires !InCurrentFormat(r)
    requires Trimmed(OrEmpty(r.firstName)) && Trimmed(OrEmpty(r.lastName))
    ensures (Truthy(r.firstName) && Truthy(r.lastName))
            ==> Migrate(r).fullName == Some(r.firstName.value + " " + r.lastName.value)
    ensures !Truthy(r.lastName) ==> Migrate(r).fullName == Some(r.firstName.value)
    ensures !Truthy(r.firstName) ==> Migrate(r).fullName == Some(r.lastName.value)
  {
    var f, l := OrEmpty(r.firstName), OrEmpty(r.lastName);
    var joined := f + " " + l;
    if f != [] && l != [] {
      assert joined[0] == f[0] && joined[|joined| - 1] == l[|l| - 1];
      TrimOfTrimmed(joined);
    } else if l == [] {
      assert TrimEnd(joined) == f by {
        assert joined[..|joined| - 1] == f;
        assert joined == f + [' '];
      }
      TrimOfTrimmed(f);
      assert TrimStart(joined) == joined;
    } else {
      assert joined == [' '] + l;
      assert joined[1..] == l;
      TrimOfTrimmed(l);
      assert TrimStart(joined) == l;
    }
  }

  /** The `participants.map(...)` call: every record upgraded, order kept. */
  function MigrateAll(rs: seq<StoredRecord>): (ms: seq<StoredRecord>)
    ensures |ms| == |rs|
    ensures forall i :: 0 <= i < |rs| ==> ms[i] == Migrate(rs[i])
  {
    seq(|rs|, i requires 0 <= i < |rs| => Migrate(rs[i]))
  }

  /** Loading twice upgrades nothing further. */
  lemma MigrateAllIdempotent(rs: seq<StoredRecord>)
    ensures MigrateAll(MigrateAll(rs)) == MigrateAll(rs)
  {
    var once := MigrateAll(rs);
    var twice := MigrateAll(once);
    forall i | 0 <= i < |rs|
      ensures twice[i] == once[i]
    {
      MigrateIdempotent(rs[i]);
    }
  }
}
