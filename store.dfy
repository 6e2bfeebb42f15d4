/**
 * The users table behind the `pg` pool. The table is held in memory: the rows in
 * insertion order and the next value of the serial user_id column. The queries
 * the controller issues are filters over the rows. A result set lists the
 * matching rows in table order, and the controller only tests `rows[0]`.
 */
module Store {
  import opened Bcrypt

  /** One row of the users table. */
  datatype User = User(
    user_id: int,
    email: string,
    username: string,
    password: HashedPassword,
    usertype: int,
    admintype: int)

  /** `select * from users where <p>`: the matching rows, in table order. */
  function Select(rows: seq<User>, p: User -> bool): (r: seq<User>)
    ensures |r| <= |rows|
    ensures forall u :: u in r <==> u in rows && p(u)
    ensures r == [] <==> forall i :: 0 <= i < |rows| ==> !p(rows[i])
    decreases |rows|
  {
    if rows == [] then []
    else
      var rest := Select(rows[1..], p);
      assert forall i :: 1 <= i < |rows| ==> rows[i] == rows[1..][i - 1];
      assert rows == [rows[0]] + rows[1..];
      if p(rows[0]) then [rows[0]] + rest else rest
  }

  /** The first row of a result set is the first matching row of the table. */
  lemma {:induction false} SelectFirst(rows: seq<User>, p: User -> bool, i: nat)
    requires i < |rows| && p(rows[i])
    requires forall j :: 0 <= j < i ==> !p(rows[j])
    ensures Select(rows, p) != [] && Select(rows, p)[0] == rows[i]
    decreases i
  {
    if i > 0 {
      assert rows[1..][i - 1] == rows[i];
      assert forall j :: 0 <= j < i - 1 ==> rows[1..][j] == rows[j + 1];
      SelectFirst(rows[1..], p, i - 1);
    }
  }

  /** No two rows share a username. */
  ghost predicate UniqueUsernames(rows: seq<User>)
  {
    forall i, j :: 0 <= i < j < |rows| ==> rows[i].username != rows[j].username
  }

  /** No two rows share a username, and no two rows share an email. */
  ghost predicate UniqueIdentities(rows: seq<User>)
  {
    forall i, j :: 0 <= i < j < |rows| ==> rows[i].username != rows[j].username && rows[i].email != rows[j].email
  }

  /** Some row has this username or this email. */
  ghost predicate Taken(rows: seq<User>, username: string, email: string)
  {
    exists i :: 0 <= i < |rows| && (rows[i].username == username || rows[i].email == email)
  }

  /** Appending a row whose username and email are both new keeps the identities unique. */
  lemma AppendKeepsUnique(rows: seq<User>, row: User)
    requires UniqueIdentities(rows)
    requires !Taken(rows, row.username, row.email)
    ensures UniqueIdentities(rows + [row])
  {
    var rows' := rows + [row];
    forall i, j | 0 <= i < j < |rows'|
      ensures rows'[i].username != rows'[j].username && rows'[i].email != rows'[j].email
    {
      if j == |rows| {
        assert rows'[i] == rows[i];
      } else {
        assert rows'[i] == rows[i] && rows'[j] == rows[j];
      }
    }
  }

  /** The users table: its rows and the counter behind the serial user_id column. */
  class UserTable {
    var rows: seq<User>
    var nextId: int

    /** Every id was handed out by the counter, so ids are positive, distinct and below it. */
    ghost predicate Valid()
      reads this
    {
      && 1 <= nextId
      && (forall i :: 0 <= i < |rows| ==> 1 <= rows[i].user_id < nextId)
      && (forall i, j :: 0 <= i < j < |rows| ==> rows[i].user_id != rows[j].user_id)
    }

    constructor ()
      ensures Valid() && rows == [] && nextId == 1
    {
      rows := [];
      nextId := 1;
    }

    /** `insert into users (...) values (...) returning *`: the new row takes the next id. */
    method Insert(email: string, username: string, password: HashedPassword, usertype: int, admintype: int)
      returns (row: User)
      requires Valid()
      modifies this
      ensures Valid()
      ensures row == User(old(nextId), email, username, password, usertype, admintype)
      ensures rows == old(rows) + [row] && nextId == old(nextId) + 1
      ensures forall i :: 0 <= i < |old(rows)| ==> old(rows)[i].user_id != row.user_id
    {
      row := User(nextId, email, username, password, usertype, admintype);
      rows := rows + [row];
      nextId := nextId + 1;
    }
  }
}
