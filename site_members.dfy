/** Site membership (SiteMemberService, deepwell/src/services/site_member/service.rs).
    The site_member table is a sequence of rows in insertion order; a row is
    an active membership while its leave date is null, and leaving a site
    sets the leave date instead of deleting the row.  The database
    transaction becomes the table object, and the clock becomes the `now`
    argument of Remove. */
module SiteMembers {
  import opened Wrappers

  /** An opaque point in time, as produced by the clock. */
  type Timestamp = int

  /** The (site, user) pair a membership is looked up by. */
  datatype SiteMembership = SiteMembership(siteId: int, userId: int)

  /** One row of the site_member table. */
  datatype SiteMember = SiteMember(siteId: int, userId: int, dateLeft: Option<Timestamp>)

  /** The service errors these operations can return. */
  datatype Error = BadRequest | NotFound

  function KeyOf(m: SiteMember): SiteMembership
  {
    SiteMembership(m.siteId, m.userId)
  }

  /** The row passes the filter of get_optional for this key: site and user
      match and the leave date is null. */
  predicate IsActiveFor(m: SiteMember, key: SiteMembership)
  {
    m.siteId == key.siteId && m.userId == key.userId && m.dateLeft.None?
  }

  /** The table invariant the service relies on: no (site, user) pair has
      two active memberships. */
  ghost predicate AtMostOneActive(rows: seq<SiteMember>)
  {
    forall i, j :: 0 <= i < j < |rows| && rows[i].dateLeft.None? && rows[j].dateLeft.None? ==>
      KeyOf(rows[i]) != KeyOf(rows[j])
  }

  /** The index of the first row that passes the filter for key, if any. */
  function FirstActive(rows: seq<SiteMember>, key: SiteMembership): (r: Option<nat>)
    ensures r.None? <==> forall i :: 0 <= i < |rows| ==> !IsActiveFor(rows[i], key)
    ensures r.Some? ==> r.value < |rows| && IsActiveFor(rows[r.value], key)
    ensures r.Some? ==> forall i :: 0 <= i < r.value ==> !IsActiveFor(rows[i], key)
  {
    if |rows| == 0 then None
    else if IsActiveFor(rows[0], key) then Some(0)
    else
      match FirstActive(rows[1..], key)
      case None => None
      case Some(p) => Some(p + 1)
  }

  /** Under the invariant, an active row for key is the one FirstActive finds. */
  lemma ActiveRowIsFirst(rows: seq<SiteMember>, key: SiteMembership, i: nat)
    requires AtMostOneActive(rows)
    requires i < |rows| && IsActiveFor(rows[i], key)
    ensures FirstActive(rows, key) == Some(i)
  {
    var r := FirstActive(rows, key);
    assert r.Some?;
  }

  /** The row add inserts. */
  function NewMember(key: SiteMembership): (m: SiteMember)
    ensures KeyOf(m) == key && IsActiveFor(m, key)
  {
    SiteMember(key.siteId, key.userId, None)
  }

  /** Appending the new row when the pair has no active membership keeps
      the invariant, makes the pair active, and changes no other pair's
      lookup. */
  lemma {:induction false} AppendNewMember(rows: seq<SiteMember>, key: SiteMembership)
    requires FirstActive(rows, key).None?
    ensures AtMostOneActive(rows) ==> AtMostOneActive(rows + [NewMember(key)])
    ensures FirstActive(rows + [NewMember(key)], key) == Some(|rows|)
    ensures forall k :: k != key ==> FirstActive(rows + [NewMember(key)], k) == FirstActive(rows, k)
  {
    var rows' := rows + [NewMember(key)];
    assert forall i :: 0 <= i < |rows| ==> rows'[i] == rows[i];
    assert IsActiveFor(rows'[|rows|], key);
    forall k | k != key
      ensures FirstActive(rows', k) == FirstActive(rows, k)
    {
      assert !IsActiveFor(rows'[|rows|], k);
    }
    if AtMostOneActive(rows) {
      forall i, j | 0 <= i < j < |rows'| && rows'[i].dateLeft.None? && rows'[j].dateLeft.None?
        ensures KeyOf(rows'[i]) != KeyOf(rows'[j])
      {
        if j == |rows| {
          assert !IsActiveFor(rows[i], key);
        }
      }
    }
  }

  /** The row remove writes back: the same row with its leave date set. */
  function Left(m: SiteMember, now: Timestamp): (m': SiteMember)
    ensures KeyOf(m') == KeyOf(m) && m'.dateLeft == Some(now)
  {
    m.(dateLeft := Some(now))
  }

  /** Setting the leave date of the active row of key keeps the invariant,
      leaves no active row for key when the invariant held, and changes no
      other pair's lookup. */
  lemma {:induction false} MarkLeft(rows: seq<SiteMember>, key: SiteMembership, now: Timestamp)
    requires FirstActive(rows, key).Some?
    ensures var i := FirstActive(rows, key).value;
            var rows' := rows[i := Left(rows[i], now)];
            && (AtMostOneActive(rows) ==> AtMostOneActive(rows'))
            && (AtMostOneActive(rows) ==> FirstActive(rows', key).None?)
            && (forall k :: k != key ==> FirstActive(rows', k) == FirstActive(rows, k))
  {
    var i := FirstActive(rows, key).value;
    var rows' := rows[i := Left(rows[i], now)];
    forall k | k != key
      ensures FirstActive(rows', k) == FirstActive(rows, k)
    {
      assert forall j :: 0 <= j < |rows| ==> (IsActiveFor(rows'[j], k) <==> IsActiveFor(rows[j], k));
    }
    if AtMostOneActive(rows) {
      forall j | 0 <= j < |rows'|
        ensures !IsActiveFor(rows'[j], key)
      {
      }
    }
  }

  /** The site_member table. */
  class SiteMemberTable {
    var rows: seq<SiteMember>

    /** An empty table. */
    constructor ()
      ensures rows == []
      ensures AtMostOneActive(rows)
    {
      rows := [];
    }

    /** get_optional: the active membership of the pair, if any.  `.one()`
        takes the first row that passes the filter, here in table order. */
    function GetOptional(key: SiteMembership): (r: Option<SiteMember>)
      reads this
      ensures r.Some? ==> r.value in rows && IsActiveFor(r.value, key)
      ensures r.None? <==> forall i :: 0 <= i < |rows| ==> !IsActiveFor(rows[i], key)
    {
      match FirstActive(rows, key)
      case None => None
      case Some(i) => Some(rows[i])
    }

    /** get: like get_optional, with "not found" turned into an error. */
    function Get(key: SiteMembership): (r: Result<SiteMember, Error>)
      reads this
      ensures r.Failure? <==> GetOptional(key).None?
      ensures r.Failure? ==> r.error == NotFound
      ensures r.Success? ==> GetOptional(key) == Some(r.value)
      ensures r.Success? ==> r.value in rows && IsActiveFor(r.value, key)
    {
      match GetOptional(key)
      case None => Failure(NotFound)
      case Some(m) => Success(m)
    }

    /** add: nothing happens when the pair is already an active member;
        otherwise one new active row is appended and returned. */
    method Add(key: SiteMembership) returns (r: Option<SiteMember>)
      modifies this
      ensures old(GetOptional(key)).Some? ==> r.None? && rows == old(rows)
      ensures old(GetOptional(key)).None? ==>
                r == Some(NewMember(key)) && rows == old(rows) + [NewMember(key)]
      ensures GetOptional(key).Some?
      ensures AtMostOneActive(old(rows)) ==> AtMostOneActive(rows)
      ensures forall k :: k != key ==> GetOptional(k) == old(GetOptional(k))
    {
      var existing := GetOptional(key);
      if existing.Some? {
        return None;
      }
      AppendNewMember(rows, key);
      var membership := NewMember(key);
      rows := rows + [membership];
      r := Some(membership);
    }

    /** remove: fails with BadRequest when the pair has no active membership;
        otherwise sets the leave date of that row to `now`, keeps every other
        field and every other row, and returns the updated row (always as
        Some, as the source does). */
    method Remove(key: SiteMembership, now: Timestamp) returns (r: Result<Option<SiteMember>, Error>)
      modifies this
      ensures old(GetOptional(key)).None? ==> r == Failure(BadRequest) && rows == old(rows)
      ensures old(GetOptional(key)).Some? ==>
                var i := FirstActive(old(rows), key).value;
                && rows == old(rows)[i := Left(old(rows)[i], now)]
                && r == Success(Some(Left(old(rows)[i], now)))
      ensures AtMostOneActive(old(rows)) ==> AtMostOneActive(rows) && GetOptional(key).None?
      ensures forall k :: k != key ==> GetOptional(k) == old(GetOptional(k))
    {
      match FirstActive(rows, key)
      case None =>
        return Failure(BadRequest);
      case Some(i) =>
        MarkLeft(rows, key, now);
        var model := Left(rows[i], now);
        rows := rows[i := model];
        r := Success(Some(model));
    }
  }

  /** Removing twice: under the invariant, the second remove of the same
      pair fails with BadRequest. */
  method RemoveTwice(table: SiteMemberTable, key: SiteMembership, now: Timestamp, later: Timestamp)
    returns (first: Result<Option<SiteMember>, Error>, second: Result<Option<SiteMember>, Error>)
    requires AtMostOneActive(table.rows)
    modifies table
    ensures second == Failure(BadRequest)
    ensures first.Success? <==> old(table.GetOptional(key)).Some?
  {
    first := table.Remove(key, now);
    second := table.Remove(key, later);
  }
}
