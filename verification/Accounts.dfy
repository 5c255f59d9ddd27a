/** The account store: the users and children tables with their keys and foreign keys. */
module Accounts {
  import opened CStrings

  datatype Row = Row(pw: Bytes, role: Bytes, edu: Bytes, school: Bytes)

  /** `children` holds (child, parent) pairs; `meals` is keyed by date, office and school. */
  datatype Db = Db(users: map<Bytes, Row>, children: set<(Bytes, Bytes)>, meals: map<(Bytes, Bytes, Bytes), Bytes>)

  datatype Op =
    | Insert(id: Bytes, row: Row)
    | Update(id: Bytes, pw: Bytes, edu: Bytes, school: Bytes)
    | Delete(id: Bytes)
    | Link(child: Bytes, parent: Bytes)
    | Unlink(child: Bytes, parent: Bytes)

  predicate Linked(db: Db, id: Bytes) {
    exists l :: l in db.children && (l.0 == id || l.1 == id)
  }

  /** One statement: the new tables and whether SQLite reports success. An UPDATE or DELETE that
      matches no row succeeds. */
  function Apply(db: Db, op: Op): (Db, bool) {
    match op
    case Insert(id, row) =>
      if id in db.users then (db, false) else (db.(users := db.users[id := row]), true)
    case Update(id, pw, edu, school) =>
      if id in db.users then (db.(users := db.users[id := db.users[id].(pw := pw, edu := edu, school := school)]), true)
      else (db, true)
    case Delete(id) =>
      if id in db.users && Linked(db, id) then (db, false) else (db.(users := db.users - {id}), true)
    case Link(child, parent) =>
      if child in db.users && parent in db.users && (child, parent) !in db.children
      then (db.(children := db.children + {(child, parent)}), true)
      else (db, false)
    case Unlink(child, parent) => (db.(children := db.children - {(child, parent)}), true)
  }

  function ApplyAll(db: Db, ops: seq<Op>): Db
    decreases |ops|
  {
    if ops == [] then db else ApplyAll(Apply(db, ops[0]).0, ops[1..])
  }

  /** Both ends of every child link are users. */
  predicate Sound(db: Db) {
    forall l :: l in db.children ==> l.0 in db.users && l.1 in db.users
  }

  const EMPTY := Db(map[], {}, map[])

  lemma ApplyKeepsSound(db: Db, op: Op)
    requires Sound(db)
    ensures Sound(Apply(db, op).0)
  {
    var db' := Apply(db, op).0;
    if op.Delete? && Apply(db, op).1 {
      forall l | l in db'.children
        ensures l.0 in db'.users && l.1 in db'.users
      {
        assert l in db.children;
      }
    }
  }

  /** Every run from sound tables keeps both ends of each child link. */
  lemma {:induction false} RunsKeepSound(db: Db, ops: seq<Op>)
    requires Sound(db)
    ensures Sound(ApplyAll(db, ops))
    decreases |ops|
  {
    if ops != [] {
      ApplyKeepsSound(db, ops[0]);
      RunsKeepSound(Apply(db, ops[0]).0, ops[1..]);
    }
  }

  /** Deleting fails exactly for a linked user, and then changes nothing; otherwise only that user goes. */
  lemma DeleteResult(db: Db, id: Bytes)
    requires Sound(db)
    ensures Apply(db, Delete(id)).1 <==> !Linked(db, id)
    ensures Linked(db, id) ==> Apply(db, Delete(id)).0 == db
    ensures !Linked(db, id) ==> Apply(db, Delete(id)).0 == db.(users := db.users - {id})
  {
    if Linked(db, id) {
      var l :| l in db.children && (l.0 == id || l.1 == id);
      assert id in db.users;
    } else {
      assert id !in db.users ==> db.users - {id} == db.users;
    }
  }

  /** Some statement of the run removed the row of `id`. */
  predicate Removed(db: Db, ops: seq<Op>, id: Bytes)
    decreases |ops|
  {
    ops != [] &&
    ((ops[0] == Delete(id) && id in db.users && Apply(db, ops[0]).1) || Removed(Apply(db, ops[0]).0, ops[1..], id))
  }

  /** A user's row and role last until the row is removed. */
  lemma {:induction false} RoleLasts(db: Db, ops: seq<Op>, id: Bytes)
    requires id in db.users && !Removed(db, ops, id)
    ensures id in ApplyAll(db, ops).users && ApplyAll(db, ops).users[id].role == db.users[id].role
    decreases |ops|
  {
    if ops != [] { RoleLasts(Apply(db, ops[0]).0, ops[1..], id); }
  }
}
