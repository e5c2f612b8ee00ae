/**
 * The request handlers of the contacts application: the two validators, the
 * helpers the views call, and the bodies of the POST handlers. A handler takes
 * its parameters already stripped and converted to integers; what it leaves in
 * the session (`session[:success]` or `session[:error]`) is its result, and the
 * store is changed in place. Rendering and redirects are not modelled.
 */
module ContactsApp {
  import opened Wrappers
  import opened Rows
  import opened Persistence

  const NAME_LENGTH_ERROR := "Name must be between 1 and 100 characters."
  const DUPLICATE_NAME_ERROR := "You already have this person in your contacts"
  const ALREADY_IN_GROUP_ERROR := "Contact already in this group."
  const CONTACT_ADDED := "Contact added!"
  const CONTACT_UPDATED := "This contact has been updated."
  const CONTACT_DELETED := "The contact has been deleted."
  const ADDED_TO_GROUP := "Added!"
  const REMOVED_FROM_GROUP := "Removed!"

  /** The flash a handler sets: `session[:success]` or `session[:error]`. */
  datatype Flash = SuccessFlash(message: string) | ErrorFlash(message: string)

  /** A handler either sets a flash or raises out of a store call. */
  datatype Outcome = Flashed(flash: Flash) | Raised(error: Error)

  /** No two contacts carry the same name. */
  ghost predicate UniqueNames(t: seq<Contact>)
  {
    forall i, j :: 0 <= i < j < |t| ==> t[i].name != t[j].name
  }

  // ------------------------------------------------------------ validators and helpers

  /**
   * `error_for_contact_name`: the length bound 1..100 first, then an exact,
   * case-sensitive comparison against every stored name; nil when both pass.
   */
  function ErrorForContactName(store: DBPersistence, name: string): (r: Option<string>)
    reads store
    ensures r == Some(NAME_LENGTH_ERROR) <==> !(1 <= |name| <= 100)
    ensures r == Some(DUPLICATE_NAME_ERROR) <==>
      1 <= |name| <= 100 && exists c :: c in store.contacts && c.name == name
    ensures r == None <==>
      1 <= |name| <= 100 && forall c :: c in store.contacts ==> c.name != name
  {
    if !(1 <= |name| <= 100) then Some(NAME_LENGTH_ERROR)
    else
      var all := store.AllContacts();
      assert forall c :: c in all <==> c in store.contacts by {
        forall c ensures c in all <==> c in store.contacts {
          assert c in all <==> c in multiset(all);
          assert c in store.contacts <==> c in multiset(store.contacts);
        }
      }
      if exists c :: c in all && c.name == name then Some(DUPLICATE_NAME_ERROR)
      else None
  }

  /** `error_for_adding_to_group`: the pair is already a membership row. */
  function ErrorForAddingToGroup(store: DBPersistence, id: int, groupId: int): (r: Option<string>)
    reads store
    ensures r.Some? <==> Membership(id, groupId) in store.memberships
    ensures r.Some? ==> r.value == ALREADY_IN_GROUP_ERROR
  {
    if store.GroupIncludes(id, groupId) then Some(ALREADY_IN_GROUP_ERROR) else None
  }

  /** `group_empty?`: no membership row names the group. */
  function GroupEmpty(store: DBPersistence, id: int): (r: bool)
    reads store
    ensures r <==> forall m :: m in store.memberships ==> m.groupId != id
  {
    store.GroupContactsEmpty(id)
  }

  /**
   * `load_contact`: `find_contact` raises when no row has the id, so the
   * `return contact if contact` guard never sees an absent contact.
   */
  function LoadContact(store: DBPersistence, id: int): (r: Result<Contact, Error>)
    reads store
    ensures r.Success? <==> id in ContactIds(store.contacts)
    ensures r.Success? ==> r.value in store.contacts && r.value.id == id
  {
    store.FindContact(id)
  }

  /** The length check comes first: 0 and 101 characters are refused whatever the store holds, 1 and 100 are not. */
  lemma NameLengthBoundaries(store: DBPersistence, n1: string, n100: string, n101: string)
    requires |n1| == 1 && |n100| == 100 && |n101| == 101
    ensures ErrorForContactName(store, "") == Some(NAME_LENGTH_ERROR)
    ensures ErrorForContactName(store, n101) == Some(NAME_LENGTH_ERROR)
    ensures ErrorForContactName(store, n1) != Some(NAME_LENGTH_ERROR)
    ensures ErrorForContactName(store, n100) != Some(NAME_LENGTH_ERROR)
  {
  }

  /** A row whose name differs from every stored one keeps the names unique. */
  lemma AppendNewName(t: seq<Contact>, row: Contact)
    requires UniqueNames(t)
    requires forall c :: c in t ==> c.name != row.name
    ensures UniqueNames(t + [row])
  {
  }

  /**
   * The update handler does not re-validate: renaming the second of two
   * contacts to the first one's name is accepted and duplicates the name.
   */
  lemma UpdateCanDuplicateName()
    ensures var t := [Contact(1, "Alice", "", ""), Contact(2, "Bob", "", "")];
      UniqueNames(t) && !UniqueNames(UpdateContactsWhereId(t, 2, "Alice", "", ""))
  {
  }

  // ------------------------------------------------------------ POST handlers

  /** `post "/home"`: create the contact only when the name passes validation. */
  method PostHome(store: DBPersistence, name: string, phone: string, email: string) returns (flash: Flash)
    requires store.Valid()
    modifies store
    ensures store.Valid()
    ensures old(ErrorForContactName(store, name)).Some? ==>
      flash == ErrorFlash(old(ErrorForContactName(store, name)).value) && unchanged(store)
    ensures old(ErrorForContactName(store, name)).None? ==>
      && flash == SuccessFlash(CONTACT_ADDED)
      && store.contacts == old(store.contacts) + [Contact(old(store.serial), name, phone, email)]
      && store.groups == old(store.groups) && store.memberships == old(store.memberships)
    ensures UniqueNames(old(store.contacts)) ==> UniqueNames(store.contacts)
    ensures flash.SuccessFlash? ==> 1 <= |name| <= 100
  {
    var error := ErrorForContactName(store, name);
    if error.Some? {
      flash := ErrorFlash(error.value);
    } else {
      ghost var before := store.contacts;
      store.CreateNewContact(name, phone, email);
      flash := SuccessFlash(CONTACT_ADDED);
      if UniqueNames(before) {
        AppendNewName(before, Contact(old(store.serial), name, phone, email));
      }
    }
  }

  /** `post "/home/:id"`: update without validation. */
  method PostUpdate(store: DBPersistence, id: int, name: string, phone: string, email: string) returns (flash: Flash)
    requires store.Valid()
    modifies store
    ensures store.Valid()
    ensures flash == SuccessFlash(CONTACT_UPDATED)
    ensures store.contacts == UpdateContactsWhereId(old(store.contacts), id, name, phone, email)
    ensures store.groups == old(store.groups) && store.memberships == old(store.memberships)
  {
    store.UpdateContact(name, phone, email, id);
    flash := SuccessFlash(CONTACT_UPDATED);
  }

  /** `post "/home/:id/delete"`: delete the contact row; its membership rows stay. */
  method PostDelete(store: DBPersistence, id: int) returns (flash: Flash)
    requires store.Valid()
    modifies store
    ensures store.Valid()
    ensures flash == SuccessFlash(CONTACT_DELETED)
    ensures store.contacts == DeleteContactsWhereId(old(store.contacts), id)
    ensures store.groups == old(store.groups) && store.memberships == old(store.memberships)
  {
    store.DeleteContact(id);
    flash := SuccessFlash(CONTACT_DELETED);
  }

  /**
   * `post "/home/groups/add/:id"`: resolve the group type (raising when there
   * is none), refuse a pair that is already present, and insert it otherwise.
   */
  method PostAddToGroup(store: DBPersistence, id: int, groupType: string) returns (outcome: Outcome)
    requires store.Valid()
    modifies store
    ensures store.Valid()
    ensures store.contacts == old(store.contacts) && store.groups == old(store.groups)
    ensures old(store.GetGroupId(groupType)).Failure? ==> outcome == Raised(NilRow) && unchanged(store)
    ensures old(store.GetGroupId(groupType)).Success? ==>
      var groupId := old(store.GetGroupId(groupType)).value;
      && (old(store.GroupIncludes(id, groupId)) ==>
            outcome == Flashed(ErrorFlash(ALREADY_IN_GROUP_ERROR)) && unchanged(store))
      && (!old(store.GroupIncludes(id, groupId)) ==>
            && outcome == Flashed(SuccessFlash(ADDED_TO_GROUP))
            && store.memberships == old(store.memberships) + [Membership(id, groupId)])
      && store.GroupIncludes(id, groupId)
    ensures NoDuplicatePairs(old(store.memberships)) ==> NoDuplicatePairs(store.memberships)
  {
    var groupId := store.GetGroupId(groupType);
    if groupId.Failure? {
      return Raised(groupId.error);
    }
    var error := ErrorForAddingToGroup(store, id, groupId.value);
    if error.Some? {
      outcome := Flashed(ErrorFlash(error.value));
    } else {
      ghost var before := store.memberships;
      var inserted := store.AddToGroup(id, groupType);
      outcome := Flashed(SuccessFlash(ADDED_TO_GROUP));
      if NoDuplicatePairs(before) {
        AppendFreshPair(before, Membership(id, groupId.value));
      }
    }
  }

  /** `post "/home/group/:group_id/remove/:id"`: delete the pair without validation. */
  method PostRemoveFromGroup(store: DBPersistence, groupId: int, id: int) returns (flash: Flash)
    requires store.Valid()
    modifies store
    ensures store.Valid()
    ensures flash == SuccessFlash(REMOVED_FROM_GROUP)
    ensures store.contacts == old(store.contacts) && store.groups == old(store.groups)
    ensures store.memberships == DeleteMemberships(old(store.memberships), id, groupId)
    ensures !store.GroupIncludes(id, groupId)
    ensures NoDuplicatePairs(old(store.memberships)) ==> NoDuplicatePairs(store.memberships)
  {
    ghost var before := store.memberships;
    store.RemoveFromGroup(id, groupId);
    flash := SuccessFlash(REMOVED_FROM_GROUP);
    if NoDuplicatePairs(before) {
      DeleteKeepsPairsUnique(before, id, groupId);
    }
  }
}
