/**
 * `DB_Persistence`: the store each request talks to. Its three fields are the
 * tables of the contacts database, `serial` stands for the sequence behind the
 * `contacts.id` column, and every public method is the SQL statement (or the
 * two) that the Ruby method sends, applied to those tables.
 */
module Persistence {
  import opened Wrappers
  import opened Rows
  import Ilike

  /** `tuple_to_contact_hash`: copies a contact row; on nil it raises (`nil["id"]`). */
  function ContactFromTuple(tuple: Option<Contact>): (r: Result<Contact, Error>)
    ensures r.Failure? <==> tuple.None?
    ensures r.Success? ==> r.value == tuple.value
  {
    match tuple
    case None => Failure(NilRow)
    case Some(row) => Success(Contact(row.id, row.name, row.phone, row.email))
  }

  /** `tuple_to_group_hash`: copies a group row; on nil it raises (`nil["id"]`). */
  function GroupFromTuple(tuple: Option<Group>): (r: Result<Group, Error>)
    ensures r.Failure? <==> tuple.None?
    ensures r.Success? ==> r.value == tuple.value
  {
    match tuple
    case None => Failure(NilRow)
    case Some(row) => Success(Group(row.id, row.groupType))
  }

  class DBPersistence {
    var contacts: seq<Contact>
    var groups: seq<Group>
    var memberships: seq<Membership>
    /** The next value of the `contacts.id` serial. */
    var serial: int

    /** The primary keys of `contacts` and `groups`, and a serial ahead of every contact id. */
    ghost predicate Valid()
      reads this
    {
      && UniqueContactIds(contacts)
      && UniqueGroupIds(groups)
      && forall c :: c in contacts ==> c.id < serial
    }

    /** Connects to a database holding the given tables. */
    constructor (contacts: seq<Contact>, groups: seq<Group>, memberships: seq<Membership>)
      requires UniqueContactIds(contacts) && UniqueGroupIds(groups)
      ensures Valid()
      ensures this.contacts == contacts && this.groups == groups && this.memberships == memberships
    {
      this.contacts := contacts;
      this.groups := groups;
      this.memberships := memberships;
      this.serial := NextSerial(contacts);
    }

    // ------------------------------------------------------------ queries

    /** `groups`: every group row exactly once, in no promised order. */
    function Groups(): (r: seq<Group>)
      reads this
      ensures multiset(r) == multiset(groups)
    {
      groups
    }

    /** `all_contacts`: every contact row exactly once, ascending by name. */
    function AllContacts(): (r: seq<Contact>)
      reads this
      ensures SortedByName(r)
      ensures multiset(r) == multiset(contacts)
    {
      OrderByName(contacts)
    }

    /** `find_contact`: the row with that id; when there is none, `tuple_to_contact_hash(nil)` raises. */
    function FindContact(id: int): (r: Result<Contact, Error>)
      reads this
      ensures r.Success? <==> id in ContactIds(contacts)
      ensures r.Success? ==> r.value in contacts && r.value.id == id
      ensures r.Failure? ==> r.error == NilRow
    {
      ContactFromTuple(First(SelectContactsById(contacts, id)))
    }

    /** `get_group_type`: the group row with that id, or the error raised on nil. */
    function GetGroupType(id: int): (r: Result<Group, Error>)
      reads this
      ensures r.Success? <==> exists g :: g in groups && g.id == id
      ensures r.Success? ==> r.value in groups && r.value.id == id
    {
      GroupFromTuple(First(SelectGroupsWhere(groups, (x: Group) => x.id == id)))
    }

    /** `get_group_id`: the id of a group of that type, or the error raised on nil. */
    function GetGroupId(groupType: string): (r: Result<int, Error>)
      reads this
      ensures r.Success? <==> exists g :: g in groups && g.groupType == groupType
      ensures r.Success? ==> Group(r.value, groupType) in groups
    {
      match GroupFromTuple(First(SelectGroupsWhere(groups, (x: Group) => x.groupType == groupType)))
      case Success(group) => Success(group.id)
      case Failure(e) => Failure(e)
    }

    /** `group_includes?`: some membership row pairs that contact with that group. */
    function GroupIncludes(id: int, groupId: int): (r: bool)
      reads this
      ensures r <==> Membership(id, groupId) in memberships
    {
      CountPair(memberships, id, groupId) != 0
    }

    /** `group_contacts_empty`: no membership row names that group. */
    function GroupContactsEmpty(id: int): (r: bool)
      reads this
      ensures r <==> forall m :: m in memberships ==> m.groupId != id
    {
      CountGroup(memberships, id) == 0
    }

    /**
     * `retrieve_group_contacts`: the contacts paired with an existing group, each
     * as often as a membership row pairs it with that group.
     */
    function RetrieveGroupContacts(groupId: int): (r: seq<Contact>)
      reads this
      ensures forall c :: c in r <==>
        c in contacts && Membership(c.id, groupId) in memberships && exists g :: g in groups && g.id == groupId
      ensures Valid() && GetGroupType(groupId).Success? ==>
        forall c :: multiset(r)[c] == if c in contacts then CountPair(memberships, c.id, groupId) else 0
    {
      var r := JoinGroupContacts(contacts, groups, memberships, groupId);
      assert Valid() && GetGroupType(groupId).Success? ==>
        forall c :: multiset(r)[c] == if c in contacts then CountPair(memberships, c.id, groupId) else 0
      by {
        if Valid() && GetGroupType(groupId).Success? {
          assert GetGroupType(groupId).value in groups;
          forall c ensures multiset(r)[c] == if c in contacts then CountPair(memberships, c.id, groupId) else 0 {
            MemberRowsCount(contacts, memberships, groupId, c);
          }
        }
      }
      r
    }

    /**
     * `contact_match`: nil gives the empty list without a query; any string `q`
     * is sent as the pattern `%q%`, and the matching rows are collected one by one.
     */
    method ContactMatch(query: Option<string>) returns (results: seq<Contact>)
      ensures query.None? ==> results == []
      ensures query.Some? ==> results == WhereNameIlike(contacts, Ilike.Enclosed(query.value))
      ensures query.Some? && Ilike.NoWildcards(query.value) ==>
        forall c :: c in results <==> c in contacts && Ilike.ContainsFolded(c.name, query.value)
      ensures query == Some("") ==> results == contacts
    {
      results := [];
      if query.None? {
        return;
      }
      var q := query.value;
      var result := WhereNameIlike(contacts, Ilike.Enclosed(q));
      var i := 0;
      while i < |result|
        invariant i <= |result|
        invariant results == result[..i]
      {
        results := results + [ContactFromTuple(Some(result[i])).value];
        i := i + 1;
      }
      assert result[..i] == result;
      if Ilike.NoWildcards(q) {
        forall c | c in contacts
          ensures Ilike.Like(c.name, Ilike.Enclosed(q)) <==> Ilike.ContainsFolded(c.name, q)
        {
          Ilike.EnclosedMatchesSubstring(c.name, q);
        }
      }
      if q == "" {
        EmptyQueryKeepsAll(contacts);
      }
    }

    // ------------------------------------------------------------ statements that write

    /** `create_new_contact`: one new row under the next serial id; nothing else changes. */
    method CreateNewContact(name: string, phone: string, email: string)
      requires Valid()
      modifies this
      ensures Valid()
      ensures old(serial) !in old(ContactIds(contacts))
      ensures contacts == old(contacts) + [Contact(old(serial), name, phone, email)]
      ensures serial == old(serial) + 1
      ensures groups == old(groups) && memberships == old(memberships)
      ensures FindContact(old(serial)) == Success(Contact(old(serial), name, phone, email))
      ensures forall id :: id != old(serial) ==> FindContact(id) == old(FindContact(id))
    {
      var row := Contact(serial, name, phone, email);
      ghost var before := contacts;
      contacts := contacts + [row];
      serial := serial + 1;
      SelectFresh(before, row);
      forall id | id != row.id
        ensures SelectContactsById(contacts, id) == SelectContactsById(before, id)
      {
        SelectAppend(before, row, id);
      }
      assert UniqueContactIds(contacts) by {
        forall i, j | 0 <= i < j < |contacts| ensures contacts[i].id != contacts[j].id {
          if j == |before| {
            assert before[i] in before;
          } else {
            assert contacts[i] == before[i] && contacts[j] == before[j];
          }
        }
      }
    }

    /** `update_contact`: overwrites name, phone and email of the row with that id, if any. */
    method UpdateContact(name: string, phone: string, email: string, id: int)
      requires Valid()
      modifies this
      ensures Valid()
      ensures contacts == UpdateContactsWhereId(old(contacts), id, name, phone, email)
      ensures groups == old(groups) && memberships == old(memberships) && serial == old(serial)
      ensures FindContact(id) == if old(FindContact(id)).Success? then Success(Contact(id, name, phone, email)) else Failure(NilRow)
      ensures forall other :: other != id ==> FindContact(other) == old(FindContact(other))
    {
      ghost var before := contacts;
      contacts := UpdateContactsWhereId(contacts, id, name, phone, email);
      forall other | other != id
        ensures SelectContactsById(contacts, other) == SelectContactsById(before, other)
      {
        SelectAfterUpdate(before, id, name, phone, email, other);
      }
      UpdateKeepsKeys(before, id, name, phone, email, serial);
    }

    /** `delete_contact`: removes the row with that id; the membership table is not touched. */
    method DeleteContact(id: int)
      requires Valid()
      modifies this
      ensures Valid()
      ensures contacts == DeleteContactsWhereId(old(contacts), id)
      ensures groups == old(groups) && memberships == old(memberships) && serial == old(serial)
      ensures FindContact(id) == Failure(NilRow)
      ensures forall other :: other != id ==> FindContact(other) == old(FindContact(other))
    {
      ghost var before := contacts;
      contacts := DeleteContactsWhereId(contacts, id);
      forall other | other != id
        ensures SelectContactsById(contacts, other) == SelectContactsById(before, other)
      {
        SelectAfterDelete(before, id, other);
      }
      DeleteKeepsUniqueIds(before, id);
    }

    /**
     * `add_to_group`: looks the group up by type (raising when there is none),
     * then inserts the pair positionally as (group_id, contact_id). No check
     * for an existing pair is made here.
     */
    method AddToGroup(id: int, groupType: string) returns (r: Result<Membership, Error>)
      requires Valid()
      modifies this
      ensures Valid()
      ensures contacts == old(contacts) && groups == old(groups) && serial == old(serial)
      ensures r.Failure? <==> GetGroupId(groupType).Failure?
      ensures r.Failure? ==> r.error == NilRow && memberships == old(memberships)
      ensures r.Success? ==> r.value == Membership(id, GetGroupId(groupType).value)
      ensures r.Success? ==> memberships == old(memberships) + [r.value]
      ensures r.Success? ==> GroupIncludes(id, r.value.groupId) && !GroupContactsEmpty(r.value.groupId)
    {
      var group := GroupFromTuple(First(SelectGroupsWhere(groups, (x: Group) => x.groupType == groupType)));
      if group.Failure? {
        return Failure(group.error);
      }
      // VALUES ($1, $2) with (group[:id], id), into the columns (group_id, contact_id).
      var row := Membership(id, group.value.id);
      memberships := memberships + [row];
      assert memberships[|memberships| - 1] == row;
      r := Success(row);
    }

    /** `remove_from_group`: deletes every membership row of the pair and keeps the rest. */
    method RemoveFromGroup(id: int, groupId: int)
      requires Valid()
      modifies this
      ensures Valid()
      ensures contacts == old(contacts) && groups == old(groups) && serial == old(serial)
      ensures memberships == DeleteMemberships(old(memberships), id, groupId)
      ensures forall m :: m != Membership(id, groupId) ==> multiset(memberships)[m] == multiset(old(memberships))[m]
      ensures !GroupIncludes(id, groupId)
      ensures GroupContactsEmpty(groupId) <==>
        forall m :: m in old(memberships) && m.groupId == groupId ==> m.contactId == id
    {
      memberships := DeleteMemberships(memberships, id, groupId);
    }
  }
}
