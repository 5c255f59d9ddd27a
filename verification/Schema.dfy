/** The database file: rows under the declared keys. A statement takes its raw effect on the rows and is
    rolled back when a key is violated; Accounts.Apply is what that comes to on the map of users. */
module Schema {
  import opened Accounts
  import opened CStrings
  import opened Options

  datatype User = User(id: Bytes, row: Row)

  datatype Rows = Rows(users: seq<User>, children: seq<(Bytes, Bytes)>)

  // ----- The declared keys -----

  predicate HasUser(users: seq<User>, id: Bytes) {
    exists k :: 0 <= k < |users| && users[k].id == id
  }

  /** id TEXT PRIMARY KEY */
  predicate UniqueIds(users: seq<User>) {
    forall i, j :: 0 <= i < j < |users| ==> users[i].id != users[j].id
  }

  /** PRIMARY KEY (child_id, parent_id) */
  predicate UniqueLinks(children: seq<(Bytes, Bytes)>) {
    forall i, j :: 0 <= i < j < |children| ==> children[i] != children[j]
  }

  /** FOREIGN KEY, twice */
  predicate References(t: Rows) {
    forall k :: 0 <= k < |t.children| ==> HasUser(t.users, t.children[k].0) && HasUser(t.users, t.children[k].1)
  }

  predicate Constraints(t: Rows) {
    UniqueIds(t.users) && UniqueLinks(t.children) && References(t)
  }

  // ----- Statements -----

  function Without(users: seq<User>, id: Bytes): seq<User> {
    if users == [] then []
    else if users[0].id == id then Without(users[1..], id)
    else [users[0]] + Without(users[1..], id)
  }

  function Rewritten(users: seq<User>, id: Bytes, pw: Bytes, edu: Bytes, school: Bytes): seq<User> {
    seq(|users|, k requires 0 <= k < |users| =>
      if users[k].id == id then users[k].(row := users[k].row.(pw := pw, edu := edu, school := school)) else users[k])
  }

  function Unlinked(children: seq<(Bytes, Bytes)>, l: (Bytes, Bytes)): seq<(Bytes, Bytes)> {
    if children == [] then []
    else if children[0] == l then Unlinked(children[1..], l)
    else [children[0]] + Unlinked(children[1..], l)
  }

  /** What the statement would do if no key were declared. */
  function Raw(t: Rows, op: Op): Rows {
    match op
    case Insert(id, row) => t.(users := t.users + [User(id, row)])
    case Update(id, pw, edu, school) => t.(users := Rewritten(t.users, id, pw, edu, school))
    case Delete(id) => t.(users := Without(t.users, id))
    case Link(child, parent) => t.(children := t.children + [(child, parent)])
    case Unlink(child, parent) => t.(children := Unlinked(t.children, (child, parent)))
  }

  function Commit(t: Rows, op: Op): (Rows, bool) {
    if Constraints(Raw(t, op)) then (Raw(t, op), true) else (t, false)
  }

  // ----- What the rows mean -----

  /** SELECT ... WHERE id = ? */
  function Select(users: seq<User>, id: Bytes): (row: Option<Row>)
    ensures row.Some? <==> HasUser(users, id)
  {
    if users == [] then None
    else if users[0].id == id then Some(users[0].row)
    else
      assert HasUser(users, id) ==> HasUser(users[1..], id) by {
        if HasUser(users, id) {
          var k :| 0 <= k < |users| && users[k].id == id;
          assert users[1..][k - 1].id == id;
        }
      }
      Select(users[1..], id)
  }

  function Ids(users: seq<User>): set<Bytes> {
    set k | 0 <= k < |users| :: users[k].id
  }

  function UserMap(users: seq<User>): map<Bytes, Row> {
    map id | id in Ids(users) :: Select(users, id).value
  }

  function Meaning(t: Rows, meals: map<(Bytes, Bytes, Bytes), Bytes>): Db {
    Db(UserMap(t.users), (set l | l in t.children), meals)
  }

  lemma SameUsers(users: seq<User>, m: map<Bytes, Row>)
    requires forall id :: Select(users, id) == if id in m then Some(m[id]) else None
    ensures UserMap(users) == m
  {
    assert forall id :: id in UserMap(users) <==> Select(users, id).Some?;
  }

  lemma {:induction false} SelectAppended(users: seq<User>, u: User, id: Bytes)
    ensures Select(users + [u], id) ==
            if HasUser(users, id) then Select(users, id) else if u.id == id then Some(u.row) else None
  {
    if users == [] {
      assert [] + [u] == [u];
    } else {
      assert (users + [u])[1..] == users[1..] + [u];
      SelectAppended(users[1..], u, id);
    }
  }

  lemma {:induction false} SelectWithout(users: seq<User>, id: Bytes, x: Bytes)
    ensures Select(Without(users, id), x) == if x == id then None else Select(users, x)
  {
    if users != [] {
      SelectWithout(users[1..], id, x);
      var rest := Without(users[1..], id);
      assert ([users[0]] + rest)[1..] == rest;
    }
  }

  lemma {:induction false} SelectRewritten(users: seq<User>, id: Bytes, pw: Bytes, edu: Bytes, school: Bytes, x: Bytes)
    ensures Select(Rewritten(users, id, pw, edu, school), x) ==
            if x == id && Select(users, x).Some?
            then Some(Select(users, x).value.(pw := pw, edu := edu, school := school)) else Select(users, x)
  {
    if users != [] {
      var users' := Rewritten(users, id, pw, edu, school);
      assert users'[1..] == Rewritten(users[1..], id, pw, edu, school);
      SelectRewritten(users[1..], id, pw, edu, school, x);
    }
  }

  lemma {:induction false} WithoutKeepsOrder(users: seq<User>, id: Bytes)
    requires UniqueIds(users)
    ensures UniqueIds(Without(users, id))
    ensures forall u :: u in Without(users, id) ==> u in users
  {
    if users != [] {
      WithoutKeepsOrder(users[1..], id);
      var rest := Without(users[1..], id);
      forall u | u in rest
        ensures u.id != users[0].id
      {
        assert u in users[1..];
        var k :| 0 <= k < |users[1..]| && users[1..][k] == u;
        assert users[k + 1].id != users[0].id;
      }
    }
  }

  lemma {:induction false} UnlinkedKeepsOrder(children: seq<(Bytes, Bytes)>, l: (Bytes, Bytes))
    requires UniqueLinks(children)
    ensures UniqueLinks(Unlinked(children, l))
    ensures forall x :: x in Unlinked(children, l) <==> x in children && x != l
  {
    if children != [] {
      UnlinkedKeepsOrder(children[1..], l);
      var rest := Unlinked(children[1..], l);
      assert children == [children[0]] + children[1..];
      forall x | x in rest
        ensures x != children[0]
      {
        var k :| 0 <= k < |children[1..]| && children[1..][k] == x;
        assert children[k + 1] != children[0];
      }
      assert forall k :: 0 <= k < |rest| ==> rest[k] in rest;
    }
  }

  // ----- Each statement -----

  lemma InsertMeans(t: Rows, id: Bytes, row: Row, meals: map<(Bytes, Bytes, Bytes), Bytes>)
    requires Constraints(t)
    ensures Constraints(Raw(t, Insert(id, row))) <==> !HasUser(t.users, id)
    ensures !HasUser(t.users, id) ==>
              Meaning(Raw(t, Insert(id, row)), meals).users == Meaning(t, meals).users[id := row]
  {
    var users' := t.users + [User(id, row)];
    assert users'[|t.users|].id == id;
    if !HasUser(t.users, id) {
      forall x | HasUser(t.users, x)
        ensures HasUser(users', x)
      {
        var k :| 0 <= k < |t.users| && t.users[k].id == x;
        assert users'[k].id == x;
      }
      assert UniqueIds(users');
      forall x
        ensures Select(users', x) == if x == id then Some(row) else Select(t.users, x)
      {
        SelectAppended(t.users, User(id, row), x);
      }
      SameUsers(users', UserMap(t.users)[id := row]);
    } else {
      var k :| 0 <= k < |t.users| && t.users[k].id == id;
      assert users'[k].id == users'[|t.users|].id;
    }
  }

  lemma RewrittenKeepsIds(users: seq<User>, users': seq<User>)
    requires |users| == |users'| && forall k :: 0 <= k < |users| ==> users[k].id == users'[k].id
    ensures forall id :: HasUser(users, id) ==> HasUser(users', id)
    ensures UniqueIds(users) ==> UniqueIds(users')
  {
    forall id | HasUser(users, id)
      ensures HasUser(users', id)
    {
      var k :| 0 <= k < |users| && users[k].id == id;
      assert users'[k].id == id;
    }
  }

  lemma UpdateMeans(t: Rows, id: Bytes, pw: Bytes, edu: Bytes, school: Bytes, meals: map<(Bytes, Bytes, Bytes), Bytes>)
    requires Constraints(t)
    ensures Constraints(Raw(t, Update(id, pw, edu, school)))
    ensures Meaning(Raw(t, Update(id, pw, edu, school)), meals) ==
            Apply(Meaning(t, meals), Update(id, pw, edu, school)).0
  {
    RewrittenKeepsIds(t.users, Rewritten(t.users, id, pw, edu, school));
    UpdatedUsers(t.users, id, pw, edu, school);
  }

  lemma UpdatedUsers(users: seq<User>, id: Bytes, pw: Bytes, edu: Bytes, school: Bytes)
    ensures var m := UserMap(users);
            UserMap(Rewritten(users, id, pw, edu, school)) ==
            if id in m then m[id := m[id].(pw := pw, edu := edu, school := school)] else m
  {
    var m := UserMap(users);
    var users' := Rewritten(users, id, pw, edu, school);
    var m' := if id in m then m[id := m[id].(pw := pw, edu := edu, school := school)] else m;
    forall x
      ensures Select(users', x) == if x in m' then Some(m'[x]) else None
    {
      SelectRewritten(users, id, pw, edu, school, x);
    }
    SameUsers(users', m');
  }

  lemma DeleteMeans(t: Rows, id: Bytes, meals: map<(Bytes, Bytes, Bytes), Bytes>)
    requires Constraints(t)
    ensures Constraints(Raw(t, Delete(id))) <==> !Linked(Meaning(t, meals), id)
    ensures Meaning(Raw(t, Delete(id)), meals).users == Meaning(t, meals).users - {id}
  {
    var users' := Without(t.users, id);
    WithoutKeepsOrder(t.users, id);
    forall x
      ensures Select(users', x) == if x == id then None else Select(t.users, x)
    {
      SelectWithout(t.users, id, x);
    }
    SameUsers(users', UserMap(t.users) - {id});
    assert forall x :: HasUser(users', x) <==> Select(users', x).Some?;
    assert forall k :: 0 <= k < |t.children| ==> t.children[k] in Meaning(t, meals).children;
  }

  lemma LinkMeans(t: Rows, child: Bytes, parent: Bytes, meals: map<(Bytes, Bytes, Bytes), Bytes>)
    requires Constraints(t)
    ensures var db := Meaning(t, meals);
            Constraints(Raw(t, Link(child, parent))) <==>
            child in db.users && parent in db.users && (child, parent) !in db.children
    ensures Meaning(Raw(t, Link(child, parent)), meals) ==
            Meaning(t, meals).(children := Meaning(t, meals).children + {(child, parent)})
  {
    var children' := t.children + [(child, parent)];
    assert forall l :: l in children' <==> l in t.children || l == (child, parent);
    assert forall id :: id in UserMap(t.users) <==> HasUser(t.users, id);
    assert children'[|t.children|] == (child, parent);
    if (child, parent) in t.children {
      var k :| 0 <= k < |t.children| && t.children[k] == (child, parent);
      assert children'[k] == children'[|t.children|];
    }
  }

  lemma UnlinkMeans(t: Rows, child: Bytes, parent: Bytes, meals: map<(Bytes, Bytes, Bytes), Bytes>)
    requires Constraints(t)
    ensures Constraints(Raw(t, Unlink(child, parent)))
    ensures Meaning(Raw(t, Unlink(child, parent)), meals) ==
            Meaning(t, meals).(children := Meaning(t, meals).children - {(child, parent)})
  {
    UnlinkedKeepsOrder(t.children, (child, parent));
    var children' := Unlinked(t.children, (child, parent));
    forall k | 0 <= k < |children'|
      ensures HasUser(t.users, children'[k].0) && HasUser(t.users, children'[k].1)
    {
      assert children'[k] in children';
    }
  }

  /** Rows, raw effects and rollback refine the guarded operations on the map, which are thus theorems about
      the declared keys: an INSERT fails exactly for a stored id, a DELETE exactly for a linked user, a link
      exactly when an end is missing or the pair is there. */
  lemma CommitMeans(t: Rows, op: Op, meals: map<(Bytes, Bytes, Bytes), Bytes>)
    requires Constraints(t)
    ensures Constraints(Commit(t, op).0)
    ensures (Meaning(Commit(t, op).0, meals), Commit(t, op).1) == Apply(Meaning(t, meals), op)
  {
    match op
    case Insert(id, row) => InsertMeans(t, id, row, meals);
    case Update(id, pw, edu, school) => UpdateMeans(t, id, pw, edu, school, meals);
    case Delete(id) => DeleteMeans(t, id, meals);
    case Link(child, parent) => LinkMeans(t, child, parent, meals);
    case Unlink(child, parent) => UnlinkMeans(t, child, parent, meals);
  }

  /** The open database. `fault` parameters say whether SQLite reports an error of its own for the call. */
  class Database {
    var users: seq<User>
    var children: seq<(Bytes, Bytes)>
    const meals: map<(Bytes, Bytes, Bytes), Bytes>

    predicate Valid()
      reads this
    {
      Constraints(Rows(users, children))
    }

    function Tables(): Db
      reads this
    {
      Meaning(Rows(users, children), meals)
    }

    /** Opens an existing file, or the empty one. */
    constructor (rows: Rows, meals: map<(Bytes, Bytes, Bytes), Bytes>)
      requires Constraints(rows)
      ensures Valid() && Tables() == Meaning(rows, meals)
    {
      this.users, this.children, this.meals := rows.users, rows.children, meals;
    }

    /** One statement: it changes the rows, and puts them back when a key is violated. */
    method Execute(op: Op) returns (ok: bool)
      requires Valid()
      modifies this
      ensures Valid() && (Tables(), ok) == Apply(old(Tables()), op)
    {
      CommitMeans(Rows(users, children), op, meals);
      var journal := Rows(users, children);
      match op {
        case Insert(id, row) => users := users + [User(id, row)];
        case Update(id, pw, edu, school) => users := Rewritten(users, id, pw, edu, school);
        case Delete(id) => users := Without(users, id);
        case Link(child, parent) => children := children + [(child, parent)];
        case Unlink(child, parent) => children := Unlinked(children, (child, parent));
      }
      ok := Constraints(Rows(users, children));
      if !ok { users, children := journal.users, journal.children; }
    }

    method IsUserExists(id: Bytes, fault: bool) returns (found: bool)
      ensures found <==> !fault && id in Tables().users
    {
      found := !fault && Select(users, id).Some?;
    }

    /** add_user: only a new id gets a row, and nothing else changes. */
    method AddUser(id: Bytes, row: Row, fault: bool) returns (ok: bool)
      requires Valid()
      modifies this
      ensures Valid() && (ok <==> !fault && id !in old(Tables()).users)
      ensures Tables() == if ok then old(Tables()).(users := old(Tables()).users[id := row]) else old(Tables())
    {
      if fault { return false; }
      ok := Execute(Insert(id, row));
    }

    /** delete_user: refused exactly for a user some link names, with nothing changed. */
    method DeleteUser(id: Bytes, fault: bool) returns (ok: bool)
      requires Valid()
      modifies this
      ensures Valid() && (ok <==> !fault && !Linked(old(Tables()), id))
      ensures Tables() == if ok then old(Tables()).(users := old(Tables()).users - {id}) else old(Tables())
    {
      if fault { return false; }
      MeaningIsSound(Rows(users, children), meals);
      DeleteResult(Tables(), id);
      ok := Execute(Op.Delete(id));
    }

    /** db_add_child: the pair is new and both ends are users, though only the child is looked up. */
    method DbAddChild(child: Bytes, parent: Bytes, existsFault: bool, fault: bool) returns (ok: bool)
      requires Valid()
      modifies this
      ensures Valid()
      ensures ok <==> !existsFault && !fault && child in old(Tables()).users && parent in old(Tables()).users
                      && (child, parent) !in old(Tables()).children
      ensures Tables() == if ok then old(Tables()).(children := old(Tables()).children + {(child, parent)})
                          else old(Tables())
    {
      var known := IsUserExists(child, existsFault);
      if !known || fault { return false; }
      ok := Execute(Link(child, parent));
    }
  }

  /** The declared keys make the map sound, for every file the server may open. */
  lemma MeaningIsSound(t: Rows, meals: map<(Bytes, Bytes, Bytes), Bytes>)
    requires Constraints(t)
    ensures Sound(Meaning(t, meals))
  {
    forall l | l in Meaning(t, meals).children
      ensures l.0 in UserMap(t.users) && l.1 in UserMap(t.users)
    {
      var k :| 0 <= k < |t.children| && t.children[k] == l;
      assert HasUser(t.users, t.children[k].0) && HasUser(t.users, t.children[k].1);
    }
  }
}
