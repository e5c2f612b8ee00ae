/**
 * The three tables of the contacts database and the SQL statements the store
 * issues, as operations on table values. A table is a sequence of rows in the
 * order a scan yields them; where SQL promises no order, the contracts speak
 * of multisets.
 */
module Rows {
  import opened Wrappers
  import Collation
  import Ilike

  /** A row of `contacts`, and the hash `tuple_to_contact_hash` builds from it. */
  datatype Contact = Contact(id: int, name: string, phone: string, email: string)

  /** A row of `groups`; `groupType` is the `type` column. */
  datatype Group = Group(id: int, groupType: string)

  /**
   * A row of `contact_groups`, held as a named pair. The table's schema is not
   * part of this model; its column order is taken to be (group_id, contact_id),
   * which makes the positional `INSERT ... VALUES ($1, $2)` of `add_to_group`
   * agree with the named columns of `remove_from_group` and `group_includes?`.
   */
  datatype Membership = Membership(contactId: int, groupId: int)

  /** What `tuple_to_*_hash(result.first)` raises when no row matched: `nil["id"]`. */
  datatype Error = NilRow

  // ---------------------------------------------------------------- keys

  function ContactIds(t: seq<Contact>): set<int>
  {
    set c | c in t :: c.id
  }

  /** The primary key of `contacts`. */
  ghost predicate UniqueContactIds(t: seq<Contact>)
  {
    forall i, j :: 0 <= i < j < |t| ==> t[i].id != t[j].id
  }

  /** The primary key of `groups`. */
  ghost predicate UniqueGroupIds(g: seq<Group>)
  {
    forall i, j :: 0 <= i < j < |g| ==> g[i].id != g[j].id
  }

  /** A value the `contacts.id` serial may hand out next: above every id in use. */
  function NextSerial(t: seq<Contact>): (r: int)
    ensures forall c :: c in t ==> c.id < r
  {
    if t == [] then 1
    else
      var rest := NextSerial(t[1..]);
      assert forall c :: c in t ==> c == t[0] || c in t[1..];
      if t[0].id < rest then rest else t[0].id + 1
  }

  // ---------------------------------------------------------------- result.first

  /** `result.first`: the first row of a result, or nil. */
  function First<T>(rows: seq<T>): (r: Option<T>)
    ensures r.None? <==> rows == []
    ensures r.Some? ==> r.value in rows
  {
    if rows == [] then None else Some(rows[0])
  }

  // ---------------------------------------------------------------- WHERE id = $1

  /** `SELECT * FROM contacts WHERE id = $1`. */
  function SelectContactsById(t: seq<Contact>, id: int): (r: seq<Contact>)
    ensures forall c :: c in r <==> c in t && c.id == id
    ensures (forall c :: c in t ==> c.id != id) ==> r == []
    ensures |r| <= |t|
  {
    if t == [] then []
    else (if t[0].id == id then [t[0]] else []) + SelectContactsById(t[1..], id)
  }

  /** `SELECT * FROM groups WHERE <cond>`: the group rows meeting the condition, in scan order. */
  function SelectGroupsWhere(g: seq<Group>, cond: Group -> bool): (r: seq<Group>)
    ensures forall x :: x in r <==> x in g && cond(x)
  {
    if g == [] then []
    else (if cond(g[0]) then [g[0]] else []) + SelectGroupsWhere(g[1..], cond)
  }

  /** Under the primary key, each contact id selects at most one row. */
  lemma {:induction false} SelectUnique(t: seq<Contact>, id: int)
    requires UniqueContactIds(t)
    ensures |SelectContactsById(t, id)| <= 1
  {
    if t != [] {
      assert UniqueContactIds(t[1..]) by {
        forall i, j | 0 <= i < j < |t[1..]| ensures t[1..][i].id != t[1..][j].id {
          assert t[1..][i] == t[i + 1] && t[1..][j] == t[j + 1];
        }
      }
      SelectUnique(t[1..], id);
      if t[0].id == id {
        assert forall c :: c in t[1..] ==> c.id != id by {
          forall c | c in t[1..] ensures c.id != id {
            var j :| 0 <= j < |t[1..]| && t[1..][j] == c;
            assert t[j + 1] == c;
          }
        }
        assert SelectContactsById(t[1..], id) == [];
      }
    }
  }

  /** An appended row is selected by its own id and by no other. */
  lemma {:induction false} SelectAppend(t: seq<Contact>, row: Contact, id: int)
    ensures SelectContactsById(t + [row], id) == SelectContactsById(t, id) + (if row.id == id then [row] else [])
  {
    var tail := if row.id == id then [row] else [];
    if t == [] {
      assert t + [row] == [row];
      assert SelectContactsById([row], id) == tail + SelectContactsById([], id);
    } else {
      var head := if t[0].id == id then [t[0]] else [];
      calc {
        SelectContactsById(t + [row], id);
        == { assert (t + [row])[0] == t[0] && (t + [row])[1..] == t[1..] + [row]; }
        head + SelectContactsById(t[1..] + [row], id);
        == { SelectAppend(t[1..], row, id); }
        head + (SelectContactsById(t[1..], id) + tail);
        (head + SelectContactsById(t[1..], id)) + tail;
        SelectContactsById(t, id) + tail;
      }
    }
  }

  /** Appending a row under a fresh id selects exactly that row by its id. */
  lemma SelectFresh(t: seq<Contact>, row: Contact)
    requires row.id !in ContactIds(t)
    ensures SelectContactsById(t + [row], row.id) == [row]
  {
    SelectAppend(t, row, row.id);
  }

  /** An update by one id selects the same rows by any other id. */
  lemma {:induction false} SelectAfterUpdate(t: seq<Contact>, id: int, name: string, phone: string, email: string, other: int)
    requires other != id
    ensures SelectContactsById(UpdateContactsWhereId(t, id, name, phone, email), other) == SelectContactsById(t, other)
  {
    if t != [] {
      var u := UpdateContactsWhereId(t, id, name, phone, email);
      assert u[1..] == UpdateContactsWhereId(t[1..], id, name, phone, email);
      SelectAfterUpdate(t[1..], id, name, phone, email, other);
    }
  }

  /** A delete by one id selects the same rows by any other id. */
  lemma {:induction false} SelectAfterDelete(t: seq<Contact>, id: int, other: int)
    requires other != id
    ensures SelectContactsById(DeleteContactsWhereId(t, id), other) == SelectContactsById(t, other)
  {
    if t != [] {
      var rest := DeleteContactsWhereId(t[1..], id);
      SelectAfterDelete(t[1..], id, other);
      assert SelectContactsById(t, other) == (if t[0].id == other then [t[0]] else []) + SelectContactsById(t[1..], other);
      if t[0].id == id {
        assert DeleteContactsWhereId(t, id) == rest;
      } else {
        var d := [t[0]] + rest;
        assert DeleteContactsWhereId(t, id) == d;
        assert d[0] == t[0] && d[1..] == rest;
        assert SelectContactsById(d, other) == (if t[0].id == other then [t[0]] else []) + SelectContactsById(rest, other);
      }
    }
  }

  // ---------------------------------------------------------------- UPDATE / DELETE

  /** `UPDATE contacts SET name = $1, phone = $2, email = $3 WHERE id = $4`. */
  function UpdateContactsWhereId(t: seq<Contact>, id: int, name: string, phone: string, email: string): (r: seq<Contact>)
    ensures |r| == |t|
    ensures forall i :: 0 <= i < |t| && t[i].id == id ==> r[i] == Contact(id, name, phone, email)
    ensures forall i :: 0 <= i < |t| && t[i].id != id ==> r[i] == t[i]
    ensures id !in ContactIds(t) ==> r == t
    ensures ContactIds(r) == ContactIds(t)
  {
    if t == [] then []
    else
      var head := if t[0].id == id then Contact(id, name, phone, email) else t[0];
      var rest := UpdateContactsWhereId(t[1..], id, name, phone, email);
      assert forall i :: 1 <= i < |t| ==> t[i] == t[1..][i - 1];
      assert ContactIds(t[1..]) <= ContactIds(t) && (id !in ContactIds(t) ==> t[0].id != id);
      [head] + rest
  }

  /** An update keeps the primary key and every id below a bound. */
  lemma UpdateKeepsKeys(t: seq<Contact>, id: int, name: string, phone: string, email: string, bound: int)
    requires UniqueContactIds(t) && forall c :: c in t ==> c.id < bound
    ensures var u := UpdateContactsWhereId(t, id, name, phone, email);
      UniqueContactIds(u) && forall c :: c in u ==> c.id < bound
  {
    var u := UpdateContactsWhereId(t, id, name, phone, email);
    assert forall i :: 0 <= i < |u| ==> u[i].id == t[i].id;
    forall c | c in u ensures c.id < bound {
      var i :| 0 <= i < |u| && u[i] == c;
      assert t[i] in t;
    }
  }

  /** `DELETE FROM contacts WHERE id = $1`: the rows kept and the rows selected by the id split the table. */
  function DeleteContactsWhereId(t: seq<Contact>, id: int): (r: seq<Contact>)
    ensures forall c :: c in r <==> c in t && c.id != id
  {
    if t == [] then []
    else (if t[0].id == id then [] else [t[0]]) + DeleteContactsWhereId(t[1..], id)
  }

  /** One step of the partition: the head row goes to exactly one side. */
  lemma PartitionStep(x: Contact, rest: seq<Contact>, kept: seq<Contact>, selected: seq<Contact>, keep: bool)
    requires multiset(kept) + multiset(selected) == multiset(rest)
    ensures multiset((if keep then [x] else []) + kept) + multiset((if keep then [] else [x]) + selected) == multiset([x] + rest)
  {
  }

  /** The rows a delete keeps and the rows the same `WHERE id = $1` selects split the table. */
  lemma {:induction false} DeleteSelectPartition(t: seq<Contact>, id: int)
    ensures multiset(DeleteContactsWhereId(t, id)) + multiset(SelectContactsById(t, id)) == multiset(t)
  {
    if t != [] {
      DeleteSelectPartition(t[1..], id);
      PartitionStep(t[0], t[1..], DeleteContactsWhereId(t[1..], id), SelectContactsById(t[1..], id), t[0].id != id);
      assert t == [t[0]] + t[1..];
    }
  }

  /** A delete keeps the contact ids unique. */
  lemma {:induction false} DeleteKeepsUniqueIds(t: seq<Contact>, id: int)
    requires UniqueContactIds(t)
    ensures UniqueContactIds(DeleteContactsWhereId(t, id))
  {
    if t != [] {
      assert UniqueContactIds(t[1..]) by {
        forall i, j | 0 <= i < j < |t[1..]| ensures t[1..][i].id != t[1..][j].id {
          assert t[1..][i] == t[i + 1] && t[1..][j] == t[j + 1];
        }
      }
      DeleteKeepsUniqueIds(t[1..], id);
      var rest := DeleteContactsWhereId(t[1..], id);
      if t[0].id != id {
        assert forall c :: c in rest ==> c.id != t[0].id by {
          forall c | c in rest ensures c.id != t[0].id {
            var j :| 0 <= j < |t[1..]| && t[1..][j] == c;
            assert t[j + 1] == c;
          }
        }
        var d := [t[0]] + rest;
        forall i, j | 0 <= i < j < |d| ensures d[i].id != d[j].id {
          assert d[j] == rest[j - 1] && d[j] in rest;
          if i > 0 {
            assert d[i] == rest[i - 1];
          }
        }
      }
    }
  }

  /** `DELETE FROM contact_groups WHERE contact_id = $1 AND group_id = $2`. */
  function DeleteMemberships(ms: seq<Membership>, contactId: int, groupId: int): (r: seq<Membership>)
    ensures forall m :: m in r <==> m in ms && m != Membership(contactId, groupId)
    ensures forall m :: m != Membership(contactId, groupId) ==> multiset(r)[m] == multiset(ms)[m]
    ensures multiset(r)[Membership(contactId, groupId)] == 0
    ensures |r| + CountPair(ms, contactId, groupId) == |ms|
  {
    if ms == [] then []
    else
      assert ms == [ms[0]] + ms[1..];
      (if ms[0] == Membership(contactId, groupId) then [] else [ms[0]])
        + DeleteMemberships(ms[1..], contactId, groupId)
  }

  // ---------------------------------------------------------------- count(...)

  /** `SELECT count(contact_id) FROM contact_groups WHERE contact_id = $1 AND group_id = $2`. */
  function CountPair(ms: seq<Membership>, contactId: int, groupId: int): (r: nat)
    ensures r == 0 <==> Membership(contactId, groupId) !in ms
    ensures r == multiset(ms)[Membership(contactId, groupId)]
  {
    if ms == [] then 0
    else
      assert ms == [ms[0]] + ms[1..];
      (if ms[0] == Membership(contactId, groupId) then 1 else 0) + CountPair(ms[1..], contactId, groupId)
  }

  /** `SELECT count(group_id) FROM contact_groups WHERE group_id = $1`. */
  function CountGroup(ms: seq<Membership>, groupId: int): (r: nat)
    ensures r == 0 <==> forall m :: m in ms ==> m.groupId != groupId
    ensures r <= |ms|
  {
    if ms == [] then 0
    else (if ms[0].groupId == groupId then 1 else 0) + CountGroup(ms[1..], groupId)
  }

  /** Each (contact, group) pair occurs at most once in `contact_groups`. */
  ghost predicate NoDuplicatePairs(ms: seq<Membership>)
  {
    forall i, j :: 0 <= i < j < |ms| ==> ms[i] != ms[j]
  }

  lemma {:induction false} NoDuplicatePairsCount(ms: seq<Membership>, contactId: int, groupId: int)
    requires NoDuplicatePairs(ms)
    ensures CountPair(ms, contactId, groupId) <= 1
  {
    if ms != [] {
      assert NoDuplicatePairs(ms[1..]) by {
        forall i, j | 0 <= i < j < |ms[1..]| ensures ms[1..][i] != ms[1..][j] {
          assert ms[1..][i] == ms[i + 1] && ms[1..][j] == ms[j + 1];
        }
      }
      NoDuplicatePairsCount(ms[1..], contactId, groupId);
      if ms[0] == Membership(contactId, groupId) {
        assert Membership(contactId, groupId) !in ms[1..] by {
          forall j | 0 <= j < |ms[1..]| ensures ms[1..][j] != ms[0] {
            assert ms[1..][j] == ms[j + 1];
          }
        }
      }
    }
  }

  /** Appending a pair that is not yet present keeps the pairs unique. */
  lemma AppendFreshPair(ms: seq<Membership>, m: Membership)
    requires NoDuplicatePairs(ms) && m !in ms
    ensures NoDuplicatePairs(ms + [m])
  {
  }

  /** Deleting pairs keeps the remaining pairs unique. */
  lemma {:induction false} DeleteKeepsPairsUnique(ms: seq<Membership>, contactId: int, groupId: int)
    requires NoDuplicatePairs(ms)
    ensures NoDuplicatePairs(DeleteMemberships(ms, contactId, groupId))
  {
    if ms != [] {
      assert NoDuplicatePairs(ms[1..]) by {
        forall i, j | 0 <= i < j < |ms[1..]| ensures ms[1..][i] != ms[1..][j] {
          assert ms[1..][i] == ms[i + 1] && ms[1..][j] == ms[j + 1];
        }
      }
      DeleteKeepsPairsUnique(ms[1..], contactId, groupId);
      var rest := DeleteMemberships(ms[1..], contactId, groupId);
      if ms[0] != Membership(contactId, groupId) {
        assert ms[0] !in ms[1..] by {
          forall j | 0 <= j < |ms[1..]| ensures ms[1..][j] != ms[0] {
            assert ms[1..][j] == ms[j + 1];
          }
        }
        assert ms[0] !in rest;
        forall i, j | 0 <= i < j < |[ms[0]] + rest| ensures ([ms[0]] + rest)[i] != ([ms[0]] + rest)[j] {
          if i == 0 {
            assert ([ms[0]] + rest)[j] == rest[j - 1];
          } else {
            assert ([ms[0]] + rest)[i] == rest[i - 1] && ([ms[0]] + rest)[j] == rest[j - 1];
          }
        }
      }
    }
  }

  /**
   * A group without members gains one by an insert of (contact, group), and an
   * insert followed by the delete of that same pair leaves it without members.
   */
  lemma EmptyAddRemoveEmpty(ms: seq<Membership>, contactId: int, groupId: int)
    requires CountGroup(ms, groupId) == 0
    ensures CountGroup(ms + [Membership(contactId, groupId)], groupId) != 0
    ensures CountGroup(DeleteMemberships(ms + [Membership(contactId, groupId)], contactId, groupId), groupId) == 0
  {
  }

  // ---------------------------------------------------------------- ILIKE

  /** `SELECT * FROM contacts WHERE name ILIKE $1`, keeping each matching row as often as it occurs. */
  function WhereNameIlike(t: seq<Contact>, pattern: string): (r: seq<Contact>)
    ensures forall c :: c in r <==> c in t && Ilike.Like(c.name, pattern)
    ensures forall c :: multiset(r)[c] == if Ilike.Like(c.name, pattern) then multiset(t)[c] else 0
  {
    if t == [] then []
    else
      assert t == [t[0]] + t[1..];
      (if Ilike.Like(t[0].name, pattern) then [t[0]] else []) + WhereNameIlike(t[1..], pattern)
  }

  /** The pattern `%%` keeps the whole table. */
  lemma {:induction false} EmptyQueryKeepsAll(t: seq<Contact>)
    ensures WhereNameIlike(t, Ilike.Enclosed("")) == t
  {
    if t != [] {
      Ilike.EmptyQueryMatchesAll(t[0].name);
      EmptyQueryKeepsAll(t[1..]);
    }
  }

  // ---------------------------------------------------------------- ORDER BY name

  ghost predicate SortedByName(s: seq<Contact>)
  {
    forall i, j :: 0 <= i < j < |s| ==> Collation.NameLe(s[i].name, s[j].name)
  }

  function InsertByName(c: Contact, s: seq<Contact>): (r: seq<Contact>)
    requires SortedByName(s)
    ensures SortedByName(r)
    ensures multiset(r) == multiset(s) + multiset{c}
  {
    if s == [] then [c]
    else if Collation.NameLe(c.name, s[0].name) then
      assert forall j :: 0 <= j < |s| ==> Collation.NameLe(c.name, s[j].name) by {
        forall j | 0 <= j < |s| ensures Collation.NameLe(c.name, s[j].name) {
          if j > 0 {
            Collation.NameLeTransitive(c.name, s[0].name, s[j].name);
          }
        }
      }
      InsertFront(c, s);
      [c] + s
    else
      assert SortedByName(s[1..]) by {
        forall i, j | 0 <= i < j < |s[1..]| ensures Collation.NameLe(s[1..][i].name, s[1..][j].name) {
          assert s[1..][i] == s[i + 1] && s[1..][j] == s[j + 1];
        }
      }
      var rest := InsertByName(c, s[1..]);
      assert s == [s[0]] + s[1..];
      assert forall x :: x in rest ==> Collation.NameLe(s[0].name, x.name) by {
        forall x | x in rest ensures Collation.NameLe(s[0].name, x.name) {
          assert x in multiset(rest);
          if x == c {
            Collation.NameLeTotal(c.name, s[0].name);
          } else {
            assert x in multiset(s[1..]);
            var j :| 0 <= j < |s[1..]| && s[1..][j] == x;
            assert s[j + 1] == x;
          }
        }
      }
      InsertFront(s[0], rest);
      [s[0]] + rest
  }

  /** Putting a row in front of a sorted run it sorts before keeps the run sorted. */
  lemma InsertFront(c: Contact, s: seq<Contact>)
    requires SortedByName(s)
    requires forall x :: x in s ==> Collation.NameLe(c.name, x.name)
    ensures SortedByName([c] + s)
  {
  }

  /** `ORDER BY contacts.name`: every row exactly once, ascending by name (ties in unspecified order). */
  function OrderByName(t: seq<Contact>): (r: seq<Contact>)
    ensures SortedByName(r)
    ensures multiset(r) == multiset(t)
  {
    if t == [] then []
    else
      assert t == [t[0]] + t[1..];
      InsertByName(t[0], OrderByName(t[1..]))
  }

  // ---------------------------------------------------------------- INNER JOIN

  /** The contacts whose id is named by the membership rows of `groupId`, one per membership row. */
  function MemberRows(t: seq<Contact>, ms: seq<Membership>, groupId: int): (r: seq<Contact>)
    ensures forall c :: c in r <==> c in t && Membership(c.id, groupId) in ms
  {
    if ms == [] then []
    else
      (if ms[0].groupId == groupId then SelectContactsById(t, ms[0].contactId) else [])
        + MemberRows(t, ms[1..], groupId)
  }

  /**
   * The join `contacts ⋈ contact_groups ⋈ groups WHERE groups.id = $1`; the
   * groups table contributes one row or none, the `id` being its primary key.
   */
  function JoinGroupContacts(t: seq<Contact>, g: seq<Group>, ms: seq<Membership>, groupId: int): (r: seq<Contact>)
    ensures forall c :: c in r <==> c in t && Membership(c.id, groupId) in ms && exists x :: x in g && x.id == groupId
    ensures (exists x :: x in g && x.id == groupId) ==> r == MemberRows(t, ms, groupId)
  {
    var matching := SelectGroupsWhere(g, (x: Group) => x.id == groupId);
    if matching == [] then []
    else
      assert matching[0] in matching;
      MemberRows(t, ms, groupId)
  }

  /** Under the primary key, a contact occurs in the join once per membership row naming it. */
  lemma {:induction false} MemberRowsCount(t: seq<Contact>, ms: seq<Membership>, groupId: int, c: Contact)
    requires UniqueContactIds(t)
    ensures multiset(MemberRows(t, ms, groupId))[c] == if c in t then CountPair(ms, c.id, groupId) else 0
  {
    if ms != [] {
      MemberRowsCount(t, ms[1..], groupId, c);
      var head := if ms[0].groupId == groupId then SelectContactsById(t, ms[0].contactId) else [];
      assert MemberRows(t, ms, groupId) == head + MemberRows(t, ms[1..], groupId);
      if ms[0].groupId == groupId {
        SelectCount(t, ms[0].contactId, c);
      }
      assert CountPair(ms, c.id, groupId)
        == (if ms[0] == Membership(c.id, groupId) then 1 else 0) + CountPair(ms[1..], c.id, groupId);
    }
  }

  /** Under the primary key, a selection by id holds a stored contact with that id exactly once, and no other contact. */
  lemma SelectCount(t: seq<Contact>, id: int, c: Contact)
    requires UniqueContactIds(t)
    ensures multiset(SelectContactsById(t, id))[c] == if c in t && c.id == id then 1 else 0
  {
    var r := SelectContactsById(t, id);
    SelectUnique(t, id);
    if c in t && c.id == id {
      assert c in r;
      assert r[0] == c;
      assert r == [c];
    } else {
      assert c !in multiset(r);
    }
  }
}
