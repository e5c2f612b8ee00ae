# Contacts store and request handlers, modelled in Dafny

This project models the core of a small Sinatra contacts manager. The core has two parts.

- `DB_Persistence` is the store. It runs one or two parameterised SQL statements per method against three tables:
  - `contacts(id, name, phone, email)`
  - `groups(id, type)`
  - `contact_groups(contact_id, group_id)`
- The request handlers in `contacts_app.rb` validate input, call the store, and set a flash message in the session.

The model is organised in six modules:

| file | module | what it holds |
|---|---|---|
| `wrappers.dfy` | `Wrappers` | `Option` and `Result`. `Result.Failure` stands for a Ruby exception. |
| `collation.dfy` | `Collation` | The order used by `ORDER BY name`, proved to be a total order. |
| `ilike.dfy` | `Ilike` | `ILIKE` pattern matching with `%`, `_`, the `\` escape and ASCII case folding. It also proves that the pattern `%q%` means "contains `q`, ignoring case" when `q` has no metacharacters. |
| `rows.dfy` | `Rows` | The row datatypes and each SQL statement as a function on table values, with lemmas about them. |
| `persistence.dfy` | `Persistence` | The class `DBPersistence`. It holds the three tables as fields, plus `serial`, the next value of the `contacts.id` sequence. Queries are functions that read the fields, and writes are methods that modify them. |
| `app.dfy` | `ContactsApp` | `error_for_contact_name`, `error_for_adding_to_group`, `group_empty?`, `load_contact`, and the five POST handlers. Each handler is a method. Four of them return the flash they set. `PostAddToGroup` returns an `Outcome`: either the flash it sets, or `Raised(NilRow)` when the group type names no group. |

How the model represents the source:
- **Tables.** A table is a sequence of rows in scan order. Where SQL promises no order, the contracts are stated over multisets: for `groups`, the join and the `ILIKE` filter.
- **Queries that find no row.** `find_contact`, `get_group_type`, `get_group_id` and `add_to_group` apply `tuple_to_*_hash` to `result.first`. With no rows that is `nil["id"]`, which raises. The model returns `Failure(NilRow)` instead.
- **Membership column order.** Memberships are stored as named pairs `Membership(contactId, groupId)`. The schema is not part of the model. The model assumes the column order is `(group_id, contact_id)`, so that the positional `INSERT ... VALUES (group[:id], id)` of `add_to_group` agrees with the named columns used by `remove_from_group` and `group_includes?`.

## Behaviour of the code worth noting

The model follows the code in each of these cases.

- **A missing contact raises.** `find_contact` never returns nil for an unknown id. It applies `tuple_to_contact_hash` to `result.first`, and `nil["id"]` raises (contacts_db_persistence.rb:59, :164). `load_contact` passes that exception on, so its `return contact if contact` never sees a nil (contacts_app.rb:31-34). The model returns `Failure(NilRow)`.
- **The empty query matches every contact.** `contact_match` returns `[]` only for a nil query (contacts_db_persistence.rb:64). The empty string becomes the pattern `%%`, which matches every name (contacts_db_persistence.rb:71; `Rows.EmptyQueryKeepsAll`).
- **Deleting a contact leaves its memberships.** The `DELETE FROM contacts` statement touches no other table (contacts_db_persistence.rb:85). Any cascade would be declared in the schema, and the schema is not part of this model. `DeleteContact` and `PostDelete` therefore keep the membership table unchanged.
- **The store does not deduplicate memberships.** `add_to_group` inserts the pair even when it is already stored (contacts_db_persistence.rb:94-95). Only the add-to-group handler checks for it first (contacts_app.rb:150-164).

## Model

| member | source | states |
|---|---|---|
| Collation.NameLeReflexive | contacts_db_persistence.rb:38 | Every name sorts at or before itself. |
| Collation.NameLeTotal | contacts_db_persistence.rb:38 | Any two names are comparable. |
| Collation.NameLeAntisymmetric | contacts_db_persistence.rb:38 | Two names that each sort at or before the other are equal. |
| Collation.NameLeTransitive | contacts_db_persistence.rb:38 | The name order is transitive. |
| Ilike.FoldIdempotent | contacts_db_persistence.rb:69 | Folding never yields an upper-case ASCII letter, and folding a folded character changes nothing. |
| Ilike.FoldEqual | contacts_db_persistence.rb:69 | Two characters fold alike if and only if they are equal or are the upper- and lower-case forms of one ASCII letter. |
| Ilike.Enclosed | contacts_db_persistence.rb:71 | The bound pattern is the query with one `%` before it and one after it. |
| Ilike.PercentMatchesAll | contacts_db_persistence.rb:69 | The pattern `%` matches every string. |
| Ilike.LeadingPercent | contacts_db_persistence.rb:69 | A leading `%` matches exactly when the rest of the pattern matches some suffix. |
| Ilike.LiteralThenPercent | contacts_db_persistence.rb:69 | A wildcard-free `q` followed by `%` matches exactly the strings that start with `q`, ignoring case. |
| Ilike.EnclosedMatchesSubstring | contacts_db_persistence.rb:62-77 | For a query with no `%`, `_` or `\`, a name matches `%q%` if and only if `q` occurs in it, ignoring case. |
| Ilike.EmptyQueryMatchesAll | contacts_db_persistence.rb:71 | The empty query's pattern `%%` matches every name. |
| Ilike.PercentClosesEscapes | contacts_db_persistence.rb:71 | Any string followed by `%` has no dangling escape. |
| Ilike.EnclosedPatternEscapesClosed | contacts_db_persistence.rb:71 | No query yields a pattern that the database would reject for ending in a lone escape. |
| Rows.NextSerial | contacts_db_persistence.rb:47-50 | Gives a serial value above every contact id in the table. |
| Rows.First | contacts_db_persistence.rb:59 | `result.first` is nil exactly for an empty result, and otherwise a row of the result. |
| Rows.SelectContactsById | contacts_db_persistence.rb:52-58 | Selects exactly the rows with that id. If no row has it, the selection is empty. |
| Rows.SelectGroupsWhere | contacts_db_persistence.rb:103-116 | Selects exactly the group rows that meet the condition, as used by `WHERE id = $1` and `WHERE type = $1`. |
| Rows.SelectUnique | contacts_db_persistence.rb:52-58 | Under the primary key, an id selects at most one row. |
| Rows.SelectAppend | contacts_db_persistence.rb:47-50 | After an insert, a select by the new row's id adds that row, and a select by any other id is unchanged. |
| Rows.SelectFresh | contacts_db_persistence.rb:47-60 | A row inserted under a fresh id is the only row its id selects. This is the round trip from create to find. |
| Rows.SelectAfterUpdate | contacts_db_persistence.rb:79-82 | An update by one id leaves the selection by every other id unchanged. |
| Rows.SelectAfterDelete | contacts_db_persistence.rb:84-86 | A delete by one id leaves the selection by every other id unchanged. |
| Rows.UpdateContactsWhereId | contacts_db_persistence.rb:79-82 | Same length as the table. Rows with the id get the new name, phone and email under the same id. Other rows are unchanged. The ids are unchanged. With no matching row, the table is unchanged. |
| Rows.UpdateKeepsKeys | contacts_db_persistence.rb:79-82 | An update keeps contact ids unique and below any bound they were below. |
| Rows.DeleteContactsWhereId | contacts_db_persistence.rb:84-86 | Keeps exactly the rows whose id differs. |
| Rows.DeleteSelectPartition | contacts_db_persistence.rb:84-86 | The deleted rows and the kept rows together make up the table, as multisets. |
| Rows.DeleteKeepsUniqueIds | contacts_db_persistence.rb:84-86 | A delete keeps contact ids unique. |
| Rows.DeleteMemberships | contacts_db_persistence.rb:98-101 | Keeps every membership row except those of the pair. Every other pair keeps its multiplicity, the pair's multiplicity becomes zero, and the number removed equals the pair's count. |
| Rows.CountPair | contacts_db_persistence.rb:118-126 | The count of rows for a pair is zero if and only if the pair is absent, and it equals the pair's multiplicity in the table. |
| Rows.CountGroup | contacts_db_persistence.rb:144-152 | The count for a group is zero if and only if no membership row names the group. |
| Rows.NoDuplicatePairsCount | contacts_db_persistence.rb:118-126 | When pairs are unique, every pair's count is at most one. |
| Rows.AppendFreshPair | contacts_app.rb:150-164 | Appending a pair that is not yet present keeps pairs unique. |
| Rows.DeleteKeepsPairsUnique | contacts_db_persistence.rb:98-101 | Deleting pairs keeps the remaining pairs unique. |
| Rows.EmptyAddRemoveEmpty | contacts_db_persistence.rb:88-153 | A group with no members has one after inserting a pair for it, and has none again after deleting that same pair. |
| Rows.WhereNameIlike | contacts_db_persistence.rb:66-71 | Keeps exactly the rows whose name matches the pattern, each as often as it occurs in the table. |
| Rows.EmptyQueryKeepsAll | contacts_db_persistence.rb:62-77 | The pattern `%%` keeps the whole table, in order. |
| Rows.InsertByName | contacts_db_persistence.rb:34-45 | Inserting one row into a sorted sequence gives a sorted sequence with that row added, as multisets. |
| Rows.InsertFront | contacts_db_persistence.rb:34-45 | Putting a row in front of a sorted sequence whose names it does not exceed keeps the sequence sorted. |
| Rows.OrderByName | contacts_db_persistence.rb:34-45 | The result is sorted ascending by name and is a permutation of the table. |
| Rows.MemberRows | contacts_db_persistence.rb:129-142 | Contains exactly the contacts that a membership row pairs with the group. |
| Rows.JoinGroupContacts | contacts_db_persistence.rb:129-142 | Contains exactly the contacts that are paired with the group, and only when that group exists. When it exists, the result is the member rows of the group. |
| Rows.MemberRowsCount | contacts_db_persistence.rb:129-142 | Under the primary key, each contact occurs in the join once per membership row that pairs it with the group. |
| Rows.SelectCount | contacts_db_persistence.rb:129-142 | Under the primary key, a selection by id holds the stored contact with that id exactly once, and no other contact. |
| Persistence.ContactFromTuple | contacts_db_persistence.rb:163-169 | Raises on a nil tuple. Otherwise copies the row's id, name, phone and email. |
| Persistence.GroupFromTuple | contacts_db_persistence.rb:157-161 | Raises on a nil tuple. Otherwise copies the row's id and type. |
| Persistence.DBPersistence.constructor | contacts_db_persistence.rb:4-11 | Holds the given tables and a serial ahead of every id, and the store invariant holds. |
| Persistence.DBPersistence.Groups | contacts_db_persistence.rb:22-32 | Every group row exactly once. |
| Persistence.DBPersistence.AllContacts | contacts_db_persistence.rb:34-45 | Every contact row exactly once (a permutation of the table), sorted ascending by name. |
| Persistence.DBPersistence.FindContact | contacts_db_persistence.rb:52-60 | Succeeds if and only if some row has the id, and then returns such a row. Otherwise it raises (`NilRow`). |
| Persistence.DBPersistence.GetGroupType | contacts_db_persistence.rb:103-108 | Returns the group row with that id if and only if one exists. Otherwise it raises. |
| Persistence.DBPersistence.GetGroupId | contacts_db_persistence.rb:110-116 | Returns the id of some group of that type if and only if one exists. Otherwise it raises. |
| Persistence.DBPersistence.GroupIncludes | contacts_db_persistence.rb:118-127 | True if and only if a membership row pairs the contact with the group. |
| Persistence.DBPersistence.GroupContactsEmpty | contacts_db_persistence.rb:144-153 | True if and only if no membership row names the group. |
| Persistence.DBPersistence.RetrieveGroupContacts | contacts_db_persistence.rb:129-142 | Contains exactly the stored contacts paired with an existing group. Under the keys, each occurs once per membership row. |
| Persistence.DBPersistence.ContactMatch | contacts_db_persistence.rb:62-77 | Nil gives `[]`. A string gives the rows matching `%q%`. With no metacharacters, those are exactly the contacts whose name contains `q`, ignoring case. `""` gives every contact. |
| Persistence.DBPersistence.CreateNewContact | contacts_db_persistence.rb:47-50 | Appends exactly one row with the given fields under an id not in the table. Groups and memberships are unchanged. `FindContact` of the new id returns that row, and every other id finds what it found before. |
| Persistence.DBPersistence.UpdateContact | contacts_db_persistence.rb:79-82 | Overwrites the fields of the row with that id. Ids and other rows are untouched. With no such row, nothing changes and nothing is raised. |
| Persistence.DBPersistence.DeleteContact | contacts_db_persistence.rb:84-86 | Removes the row with that id, after which `FindContact` of it raises. Other ids find what they found before. Memberships are untouched. |
| Persistence.DBPersistence.AddToGroup | contacts_db_persistence.rb:88-96 | Raises and changes nothing when no group has the type. Otherwise appends one `(id, group id)` pair even if it is already present, and the group is then not empty. |
| Persistence.DBPersistence.RemoveFromGroup | contacts_db_persistence.rb:98-101 | Deletes every row of the pair and keeps the rest. Every other pair keeps its multiplicity. The pair is then absent. The group is then empty if and only if every row naming it was for this contact. |
| ContactsApp.ErrorForContactName | contacts_app.rb:36-42 | The length message if and only if the length is outside 1..100, regardless of the store. The duplicate message if and only if the length is in range and some contact has exactly this name. Otherwise nil. |
| ContactsApp.ErrorForAddingToGroup | contacts_app.rb:44-48 | "Contact already in this group." if and only if the pair is a membership row. Otherwise nil. |
| ContactsApp.GroupEmpty | contacts_app.rb:26-28 | True if and only if no membership row names the group. |
| ContactsApp.LoadContact | contacts_app.rb:31-34 | Returns the contact with that id if and only if it exists. Otherwise it raises, as `find_contact` does. |
| ContactsApp.NameLengthBoundaries | contacts_app.rb:37-38 | 0 and 101 characters are refused by the length check. 1 and 100 pass it. |
| ContactsApp.AppendNewName | contacts_app.rb:76-90 | Adding a contact whose name differs from every stored name keeps names unique. |
| ContactsApp.UpdateCanDuplicateName | contacts_app.rb:119-128 | The unvalidated update can give two contacts the same name. |
| ContactsApp.PostHome | contacts_app.rb:76-90 | On a validation error, sets that error and leaves the store unchanged. Otherwise creates exactly the submitted contact and sets "Contact added!". Unique names stay unique. |
| ContactsApp.PostUpdate | contacts_app.rb:119-128 | Always updates and sets "This contact has been updated.". |
| ContactsApp.PostDelete | contacts_app.rb:131-138 | Always deletes the contact row, leaves memberships unchanged, and sets "The contact has been deleted.". |
| ContactsApp.PostAddToGroup | contacts_app.rb:150-164 | Raises when the type resolves to no group. Otherwise refuses an existing pair with "Contact already in this group." and leaves the store unchanged. Otherwise appends the pair and sets "Added!". The pair is present afterwards, and unique pairs stay unique. |
| ContactsApp.PostRemoveFromGroup | contacts_app.rb:167-174 | Always deletes the pair and sets "Removed!". Unique pairs stay unique. |

## Left out

- The PG connection, `ENV['DATABASE_URL']`, `disconnect`, the `before` and `after` hooks, and the logging in `query`. These are I/O. The constructor takes the tables the connection would see.
- Sinatra configuration, the session secret, ERB rendering, redirects and route matching. The GET routes only render. A handler's result is the flash it sets, not an HTTP response. The group id that add-to-group redirects to is not part of the outcome.
- `String#strip` and `String#to_i` on parameters. Handlers take the stripped strings and integer ids. Rows are typed, so `tuple["id"].to_i` is the identity.
- The database collation. `ORDER BY name` is modelled as code-point lexicographic order, which is a total order. Ties between equal names are in an unspecified order.
- Locale-dependent case folding in `ILIKE`. Only ASCII letters are folded.
- A pattern ending in a lone escape. PostgreSQL raises on it. The model lets it match nothing and proves that `contact_match` never builds one.
- Id generation. The serial column is modelled as a counter that starts above every existing id and advances by one per insert.
- Scan order. Each table has one fixed scan order in the model. Contracts for `groups`, the join and the `ILIKE` filter are stated as multisets.
- INSERT or UPDATE failures due to constraints (unique, foreign key). The schema is not shown, so these writes always succeed in the model.
- Schema-level cascades and foreign keys. A membership may name a deleted or never-existing contact.
- The race between validating and inserting under concurrent requests. The model is sequential.
- Persistence.DBPersistence.GetGroupId: when several groups share a type, the contract says only that some group of that type is chosen. The body takes the first in scan order, and so does the lookup inside `AddToGroup`.
- Persistence.DBPersistence.Valid: the store invariant and the constructor assume that `contacts.id` and `groups.id` are unique keys. The schema that would declare them is not part of this model. The multiplicities stated by `RetrieveGroupContacts` and `Rows.MemberRowsCount` depend on this assumption.
- Integer range of ids. Ids are unbounded integers in the model. In the source, PostgreSQL's `integer` column makes a statement raise when given an id out of its range, such as `"99999999999".to_i`. For such an id, `PostUpdate` and `PostDelete` succeed in the model, while the source raises.
