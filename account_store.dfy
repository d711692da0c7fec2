/** The data-access layer for the `account` table (`DAO.AccountDAO`). The table is held
    in memory: its rows in insertion order and the counter that generates keys. */
module AccountStore {
  import opened Wrappers
  import opened Model

  /** The position of the first row with the given username, or `|rows|` when there is none. */
  function FirstWithUsername(rows: seq<Account>, username: string): (k: nat)
    ensures k <= |rows|
    ensures k < |rows| ==> rows[k].username == username
    ensures forall j :: 0 <= j < k ==> rows[j].username != username
  {
    if rows == [] then 0
    else if rows[0].username == username then 0
    else 1 + FirstWithUsername(rows[1..], username)
  }

  /** The position of the first row with the given key, or `|rows|` when there is none. */
  function FirstWithId(rows: seq<Account>, id: int): (k: nat)
    ensures k <= |rows|
    ensures k < |rows| ==> rows[k].accountId == id
    ensures forall j :: 0 <= j < k ==> rows[j].accountId != id
  {
    if rows == [] then 0
    else if rows[0].accountId == id then 0
    else 1 + FirstWithId(rows[1..], id)
  }

  /** No two rows share a username. */
  ghost predicate UniqueUsernames(rows: seq<Account>) {
    forall i, j :: 0 <= i < j < |rows| ==> rows[i].username != rows[j].username
  }

  class AccountDAO {
    /** The rows of the table, oldest first. */
    var rows: seq<Account>
    /** The key the next successful insert receives (an auto-increment column). */
    var nextId: int

    /** Keys are positive, below the counter and ascending along the table, hence unique. */
    ghost predicate Valid()
      reads this
    {
      && 1 <= nextId
      && (forall i :: 0 <= i < |rows| ==> 1 <= rows[i].accountId < nextId)
      && (forall i, j :: 0 <= i < j < |rows| ==> rows[i].accountId < rows[j].accountId)
    }

    /** An empty table. */
    constructor ()
      ensures Valid() && rows == [] && nextId == 1
    {
      rows := [];
      nextId := 1;
    }

    /** `INSERT INTO account (username, password)`: the row receives a newly generated key,
        which is set on the account that is returned. When the statement fails (`fault`),
        nothing is written and the account comes back as it was passed. */
    method Insert(account: Account, fault: bool) returns (r: Account)
      requires Valid()
      modifies this
      ensures Valid()
      ensures fault ==> r == account && rows == old(rows) && nextId == old(nextId)
      ensures !fault ==> r == Account(old(nextId), account.username, account.password)
      ensures !fault ==> rows == old(rows) + [r] && nextId == old(nextId) + 1
      ensures !fault ==> forall i :: 0 <= i < |old(rows)| ==> old(rows)[i].accountId != r.accountId
      ensures !fault ==> CheckUsernameExists(account.username, false)
      ensures !fault ==> GetAccountByID(r.accountId) == Some(r)
      ensures !fault && (forall i :: 0 <= i < |old(rows)| ==> old(rows)[i].username != account.username) ==>
                && ValidateLogin(account) == Some(r)
                && (UniqueUsernames(old(rows)) ==> UniqueUsernames(rows))
    {
      if fault {
        return account;
      }
      r := account.(accountId := nextId);
      rows := rows + [r];
      nextId := nextId + 1;
      assert rows[|rows| - 1].username == account.username;
    }

    /** `SELECT * FROM account WHERE username = ?`, reporting whether a row came back.
        A failing query (`fault`) reports `true`: the check fails closed. */
    function CheckUsernameExists(username: string, fault: bool): (r: bool)
      reads this
      ensures r <==> fault || exists i :: 0 <= i < |rows| && rows[i].username == username
    {
      fault || FirstWithUsername(rows, username) < |rows|
    }

    /** Fetches the first row with the login's username and returns it when its password
        equals the login's exactly; otherwise `None`. */
    function ValidateLogin(login: Account): (r: Option<Account>)
      reads this
      ensures r.Some? ==> r.value in rows && r.value.username == login.username && r.value.password == login.password
      ensures (forall i :: 0 <= i < |rows| ==> rows[i].username != login.username) ==> r.None?
      ensures UniqueUsernames(rows) ==>
                (r.Some? <==> exists i :: 0 <= i < |rows| && rows[i].username == login.username && rows[i].password == login.password)
    {
      var k := FirstWithUsername(rows, login.username);
      if k < |rows| && rows[k].password == login.password then Some(rows[k]) else None
    }

    /** `SELECT * FROM account WHERE account_id = ?`: the row with that key, or `None`. */
    function GetAccountByID(id: int): (r: Option<Account>)
      reads this
      ensures r.Some? ==> r.value in rows && r.value.accountId == id
      ensures r.None? <==> forall i :: 0 <= i < |rows| ==> rows[i].accountId != id
    {
      var k := FirstWithId(rows, id);
      if k < |rows| then Some(rows[k]) else None
    }
  }
}
