/** The emergency-contact rows of the registration form (`addMember`, the
    remove button's handler and the collection of contacts when the form is
    submitted). A row is one `div.member` under `#members`; its identity as a
    DOM element is modelled by an `id` that no other row shares. */
module Contacts {
  import opened Wrappers
  import opened Text

  /** One row: its element identity, the number in its title ("Emergency
      Contact <label>"), and the raw values of its name and phone inputs
      (`None` for an input the row does not contain). */
  datatype Row = Row(id: nat, number: nat, name: Option<string>, phone: Option<string>)

  /** What the submit handler records for a row. */
  datatype Contact = Contact(name: string, phone: string)

  /** No two rows are the same element. */
  predicate DistinctIds(rows: seq<Row>) {
    forall i, j :: 0 <= i < j < |rows| ==> rows[i].id != rows[j].id
  }

  /** The ids of the rows. */
  function Ids(rows: seq<Row>): (ids: set<nat>)
    ensures forall i :: 0 <= i < |rows| ==> rows[i].id in ids
    ensures forall id :: id in ids ==> exists i :: 0 <= i < |rows| && rows[i].id == id
  {
    if rows == [] then {} else {rows[0].id} + Ids(rows[1..])
  }

  /** `addMember`: a new row with empty inputs at the end, titled with the
      number of rows already there plus one. */
  function AddRow(rows: seq<Row>, id: nat): (r: seq<Row>)
    ensures |r| == |rows| + 1 && r[..|rows|] == rows
    ensures r[|rows|] == Row(id, |rows| + 1, Some(""), Some(""))
  {
    rows + [Row(id, |rows| + 1, Some(""), Some(""))]
  }

  /** `wrapper.remove()`: the row with this id leaves the list; every other
      row stays, in order. Removing a row that is no longer there does
      nothing. */
  function RemoveRow(rows: seq<Row>, id: nat): (r: seq<Row>)
    ensures |r| <= |rows|
    ensures forall i :: 0 <= i < |r| ==> r[i].id != id
  {
    if rows == [] then []
    else if rows[0].id == id then RemoveRow(rows[1..], id)
    else [rows[0]] + RemoveRow(rows[1..], id)
  }

  /** The user types into the inputs of row `id`: an input the row has takes
      the typed value; every other row and input is unchanged. */
  function EnterRow(rows: seq<Row>, id: nat, name: string, phone: string): (r: seq<Row>)
    ensures |r| == |rows|
    ensures forall i :: 0 <= i < |rows| && rows[i].id != id ==> r[i] == rows[i]
    ensures forall i :: 0 <= i < |rows| && rows[i].id == id ==>
      r[i] == rows[i].(name := Replace(rows[i].name, name), phone := Replace(rows[i].phone, phone))
  {
    if rows == [] then []
    else
      var head := rows[0];
      var head' :=
        if head.id == id then head.(name := Replace(head.name, name), phone := Replace(head.phone, phone))
        else head;
      [head'] + EnterRow(rows[1..], id, name, phone)
  }

  /** One row as the submit handler records it: the name trimmed, the phone
      trimmed and stripped of all whitespace, "" for a missing input. */
  function CollectOne(row: Row): (c: Contact)
    ensures row.name.None? ==> c.name == ""
    ensures row.name.Some? ==> c.name == Trim(row.name.value)
    ensures c.name == [] || (!IsWs(c.name[0]) && !IsWs(c.name[|c.name| - 1]))
    ensures NoWs(c.phone)
    ensures c.phone == if row.phone.Some? then StripWs(row.phone.value) else ""
  {
    StripWsTrim(if row.phone.Some? then row.phone.value else "");
    Contact(
      if row.name.Some? then Trim(row.name.value) else "",
      if row.phone.Some? then StripWs(Trim(row.phone.value)) else "")
  }

  /** The contacts of the submit handler: one per row, in row order. */
  function Collect(rows: seq<Row>): (cs: seq<Contact>)
    ensures |cs| == |rows|
    ensures forall i :: 0 <= i < |rows| ==> cs[i] == CollectOne(rows[i])
  {
    if rows == [] then [] else [CollectOne(rows[0])] + Collect(rows[1..])
  }

  /** Collecting works row by row. */
  lemma {:induction false} CollectAppend(a: seq<Row>, b: seq<Row>)
    ensures Collect(a + b) == Collect(a) + Collect(b)
  {
    if a != [] {
      assert (a + b)[1..] == a[1..] + b;
      CollectAppend(a[1..], b);
    }
  }

  /** Removing a row that is there takes out exactly that row and leaves its
      siblings, in order. */
  lemma {:induction false} RemoveOwnRow(rows: seq<Row>, k: nat)
    requires DistinctIds(rows) && k < |rows|
    ensures RemoveRow(rows, rows[k].id) == rows[..k] + rows[k + 1..]
  {
    if k == 0 {
      RemoveAbsent(rows[1..], rows[0].id);
      assert rows[..0] + rows[1..] == rows[1..];
    } else {
      assert DistinctIds(rows[1..]) by {
        forall i, j | 0 <= i < j < |rows[1..]| ensures rows[1..][i].id != rows[1..][j].id {
          assert rows[1..][i] == rows[i + 1] && rows[1..][j] == rows[j + 1];
        }
      }
      assert rows[1..][k - 1] == rows[k];
      RemoveOwnRow(rows[1..], k - 1);
      assert rows[1..][..k - 1] == rows[1..k];
      assert rows[1..][k..] == rows[k + 1..];
      assert [rows[0]] + rows[1..k] == rows[..k];
    }
  }

  /** Removing a row that is not (or no longer) there changes nothing, so a
      second click on a removed row's button is harmless. */
  lemma {:induction false} RemoveAbsent(rows: seq<Row>, id: nat)
    requires forall i :: 0 <= i < |rows| ==> rows[i].id != id
    ensures RemoveRow(rows, id) == rows
  {
    if rows != [] {
      RemoveAbsent(rows[1..], id);
      assert [rows[0]] + rows[1..] == rows;
    }
  }

  /** Removing a row removes its contact from what the submit handler
      collects, and only that one. */
  lemma RemoveThenCollect(rows: seq<Row>, k: nat)
    requires DistinctIds(rows) && k < |rows|
    ensures Collect(RemoveRow(rows, rows[k].id)) == Collect(rows)[..k] + Collect(rows)[k + 1..]
  {
    RemoveOwnRow(rows, k);
    CollectAppend(rows[..k], rows[k + 1..]);
  }

  /** Adding two rows, removing the first and typing into the second leaves
      one contact with the typed values; a third row added afterwards gets
      the same title number as the remaining one, since titles count the
      rows present and are never renumbered. */
  lemma AddTwoRemoveFirst(name: string, phone: string)
    ensures
      var rows := EnterRow(RemoveRow(AddRow(AddRow([], 0), 1), 0), 1, name, phone);
      && Collect(rows) == [Contact(Trim(name), StripWs(phone))]
      && AddRow(rows, 2)[0].number == AddRow(rows, 2)[1].number == 2
  {
    var two := AddRow(AddRow([], 0), 1);
    assert two == [Row(0, 1, Some(""), Some("")), Row(1, 2, Some(""), Some(""))];
    assert RemoveRow(two, 0) == [Row(1, 2, Some(""), Some(""))];
    StripWsTrim(phone);
  }

  /** The `#members` container: the rows currently on the page, in page
      order. `nextId` hands out element identities. */
  class MemberList {
    var rows: seq<Row>
    var nextId: nat

    /** Every row is a distinct element created by this list. */
    ghost predicate Valid()
      reads this
    {
      DistinctIds(rows) && forall i :: 0 <= i < |rows| ==> rows[i].id < nextId
    }

    constructor ()
      ensures Valid() && rows == []
    {
      rows := [];
      nextId := 0;
    }

    /** `addMember`: appends a fresh row and answers its identity. */
    method AddMember() returns (id: nat)
      requires Valid()
      modifies this
      ensures Valid()
      ensures id == old(nextId) && id !in Ids(old(rows))
      ensures rows == AddRow(old(rows), id)
    {
      id := nextId;
      rows := AddRow(rows, id);
      nextId := nextId + 1;
    }

    /** The remove button of row `id`. */
    method RemoveMember(id: nat)
      requires Valid()
      modifies this
      ensures Valid()
      ensures rows == RemoveRow(old(rows), id) && nextId == old(nextId)
    {
      RemoveKeepsDistinct(rows, id);
      rows := RemoveRow(rows, id);
    }

    /** The user types into row `id`. */
    method Enter(id: nat, name: string, phone: string)
      requires Valid()
      modifies this
      ensures Valid()
      ensures rows == EnterRow(old(rows), id, name, phone) && nextId == old(nextId)
    {
      rows := EnterRow(rows, id, name, phone);
    }

    /** `form.reset()` on the rows: every input present goes back to its
      empty default value; the rows themselves stay. */
    method Reset()
      requires Valid()
      modifies this
      ensures Valid()
      ensures rows == Cleared(old(rows)) && nextId == old(nextId)
    {
      rows := Cleared(rows);
    }
  }

  /** Removing keeps the rows distinct elements, each still one the list
      created. */
  lemma {:induction false} RemoveKeepsDistinct(rows: seq<Row>, id: nat)
    requires DistinctIds(rows)
    ensures DistinctIds(RemoveRow(rows, id))
    ensures Ids(RemoveRow(rows, id)) <= Ids(rows)
  {
    if rows != [] {
      assert DistinctIds(rows[1..]) by {
        forall i, j | 0 <= i < j < |rows[1..]| ensures rows[1..][i].id != rows[1..][j].id {
          assert rows[1..][i] == rows[i + 1] && rows[1..][j] == rows[j + 1];
        }
      }
      RemoveKeepsDistinct(rows[1..], id);
      var rest := RemoveRow(rows[1..], id);
      if rows[0].id != id {
        forall i | 0 <= i < |rows[1..]| ensures rows[1..][i].id != rows[0].id {
          assert rows[1..][i] == rows[i + 1];
        }
        assert rows[0].id !in Ids(rest);
      }
    }
  }

  /** Every input of every row back to "". */
  function Cleared(rows: seq<Row>): (r: seq<Row>)
    ensures |r| == |rows|
    ensures forall i :: 0 <= i < |rows| ==>
      r[i] == rows[i].(name := Replace(rows[i].name, ""), phone := Replace(rows[i].phone, ""))
  {
    if rows == [] then []
    else [rows[0].(name := Replace(rows[0].name, ""), phone := Replace(rows[0].phone, ""))] + Cleared(rows[1..])
  }
}
