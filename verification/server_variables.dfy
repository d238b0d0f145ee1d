/**
 * The `server_variables` table: one row per (server, egg variable) value.
 * Server creation bulk-inserts rows, the Startup page upserts one row, and
 * force-deleting a server removes its rows.
 */
module ServerVariables {
  import opened Wrappers
  import opened PhpValues

  /** One row of the table, with its timestamps as opaque clock readings. */
  datatype VariableRow = VariableRow(serverId: nat, variableId: nat, value: Value, createdAt: nat, updatedAt: nat)

  /** The table in insertion order. */
  type Table = seq<VariableRow>

  predicate HasKey(row: VariableRow, serverId: nat, variableId: nat) {
    row.serverId == serverId && row.variableId == variableId
  }

  /** The position of the first row with the key, as `where(...)->first()` finds it. */
  function FindRow(t: Table, serverId: nat, variableId: nat): (r: Option<nat>)
    ensures r.Some? ==> r.value < |t| && HasKey(t[r.value], serverId, variableId)
    ensures r.Some? ==> forall j :: 0 <= j < r.value ==> !HasKey(t[j], serverId, variableId)
    ensures r.None? ==> forall j :: 0 <= j < |t| ==> !HasKey(t[j], serverId, variableId)
    decreases |t|
  {
    if |t| == 0 then None
    else if HasKey(t[0], serverId, variableId) then Some(0)
    else
      match FindRow(t[1..], serverId, variableId)
      case None => None
      case Some(i) => Some(i + 1)
  }

  /** The stored value for the key: that of the first row carrying it. */
  function Lookup(t: Table, serverId: nat, variableId: nat): Option<Value> {
    match FindRow(t, serverId, variableId)
    case None => None
    case Some(i) => Some(t[i].value)
  }

  /** FindRow answers with the unique first position of the key. */
  lemma FindRowIs(t: Table, serverId: nat, variableId: nat, i: nat)
    requires i < |t| && HasKey(t[i], serverId, variableId)
    requires forall j :: 0 <= j < i ==> !HasKey(t[j], serverId, variableId)
    ensures FindRow(t, serverId, variableId) == Some(i)
  {
  }

  /** Two tables whose rows carry the same keys position by position find every key at the same position. */
  lemma SameKeysSameLookup(t: Table, u: Table, serverId: nat, variableId: nat)
    requires |t| == |u|
    requires forall j :: 0 <= j < |t| ==> (HasKey(t[j], serverId, variableId) <==> HasKey(u[j], serverId, variableId))
    requires forall j :: 0 <= j < |t| && HasKey(t[j], serverId, variableId) ==> t[j].value == u[j].value
    ensures Lookup(t, serverId, variableId) == Lookup(u, serverId, variableId)
  {
    match FindRow(t, serverId, variableId)
    case Some(i) => FindRowIs(u, serverId, variableId, i);
    case None => assert FindRow(u, serverId, variableId).None?;
  }

  /** A row appended under another key leaves every lookup of other keys as it was. */
  lemma AppendOtherKey(t: Table, row: VariableRow, serverId: nat, variableId: nat)
    requires !HasKey(row, serverId, variableId)
    ensures Lookup(t + [row], serverId, variableId) == Lookup(t, serverId, variableId)
  {
    var u := t + [row];
    match FindRow(t, serverId, variableId)
    case Some(i) => FindRowIs(u, serverId, variableId, i);
    case None => assert forall j :: 0 <= j < |u| ==> !HasKey(u[j], serverId, variableId);
  }

  /**
   * `updateOrCreate` on the key with the new value at time `now`: the first
   * row with the key is updated, or a row is appended when none has it.
   * Updating a row to the value it already holds is no write at all, so its
   * `updated_at` stays.
   */
  function Upsert(t: Table, serverId: nat, variableId: nat, value: Value, now: nat): (r: Table)
    ensures Lookup(r, serverId, variableId) == Some(value)
    ensures forall s: nat, v: nat :: !(s == serverId && v == variableId) ==> Lookup(r, s, v) == Lookup(t, s, v)
    ensures FindRow(t, serverId, variableId).None? ==>
      |r| == |t| + 1 && r[..|t|] == t && r[|t|].createdAt == now && r[|t|].updatedAt == now
    ensures FindRow(t, serverId, variableId).Some? ==>
      |r| == |t|
      && (forall j :: 0 <= j < |t| && j != FindRow(t, serverId, variableId).value ==> r[j] == t[j])
      && r[FindRow(t, serverId, variableId).value].createdAt == t[FindRow(t, serverId, variableId).value].createdAt
    // `save()` on a clean model writes nothing, so an unchanged value keeps the row as it was
    ensures FindRow(t, serverId, variableId).Some? && t[FindRow(t, serverId, variableId).value].value == value ==> r == t
    ensures FindRow(t, serverId, variableId).Some? && t[FindRow(t, serverId, variableId).value].value != value ==>
      r[FindRow(t, serverId, variableId).value].updatedAt == now
  {
    match FindRow(t, serverId, variableId)
    case None =>
      var row := VariableRow(serverId, variableId, value, now, now);
      var r := t + [row];
      FindRowIs(r, serverId, variableId, |t|);
      assert forall s: nat, v: nat :: !(s == serverId && v == variableId) ==> Lookup(r, s, v) == Lookup(t, s, v) by {
        forall s: nat, v: nat | !(s == serverId && v == variableId) {
          AppendOtherKey(t, row, s, v);
        }
      }
      r
    case Some(i) =>
      var r := if t[i].value == value then t else t[i := t[i].(value := value, updatedAt := now)];
      FindRowIs(r, serverId, variableId, i);
      assert forall s: nat, v: nat :: !(s == serverId && v == variableId) ==> Lookup(r, s, v) == Lookup(t, s, v) by {
        forall s: nat, v: nat | !(s == serverId && v == variableId) {
          SameKeysSameLookup(t, r, s, v);
        }
      }
      r
  }

  /** The rows left once the server is deleted: every row of other servers, in order. */
  function RemoveServer(t: Table, serverId: nat): (r: Table)
    ensures |r| <= |t|
    ensures forall row :: row in r <==> row in t && row.serverId != serverId
    decreases |t|
  {
    if |t| == 0 then []
    else if t[0].serverId == serverId then RemoveServer(t[1..], serverId)
    else [t[0]] + RemoveServer(t[1..], serverId)
  }

  /** Deleting a server whose rows were all appended after a table without its rows restores that table. */
  lemma {:induction false} RemoveAppended(t: Table, added: Table, serverId: nat)
    requires forall j :: 0 <= j < |t| ==> t[j].serverId != serverId
    requires forall j :: 0 <= j < |added| ==> added[j].serverId == serverId
    ensures RemoveServer(t + added, serverId) == t
    decreases |t|
  {
    if |t| == 0 {
      assert t + added == added;
      RemoveOnlyRows(added, serverId);
    } else {
      assert (t + added)[1..] == t[1..] + added;
      RemoveAppended(t[1..], added, serverId);
      assert [t[0]] + t[1..] == t;
    }
  }

  /** Deleting the server of every row empties the table. */
  lemma {:induction false} RemoveOnlyRows(added: Table, serverId: nat)
    requires forall j :: 0 <= j < |added| ==> added[j].serverId == serverId
    ensures RemoveServer(added, serverId) == []
    decreases |added|
  {
    if |added| > 0 {
      RemoveOnlyRows(added[1..], serverId);
    }
  }
}
