/** The validation and orchestration layer for accounts (`Service.AccountService`). */
module AccountServices {
  import opened Wrappers
  import opened Model
  import opened Text
  import opened AccountStore

  /** Why a registration is refused, in the order the checks run. */
  datatype Reason = BlankUsername | ShortPassword | UsernameTaken

  /** The shortest password accepted, counted after trimming. */
  const MinPasswordLength: nat := 4

  class AccountService {
    const accountDAO: AccountDAO

    /** The table is well formed and, since every account is registered through this
        service, no two accounts share a username. */
    ghost predicate Valid()
      reads accountDAO
    {
      accountDAO.Valid() && UniqueUsernames(accountDAO.rows)
    }

    /** A service over a new, empty table. */
    constructor ()
      ensures Valid() && fresh(accountDAO) && accountDAO.rows == []
    {
      accountDAO := new AccountDAO();
    }

    /** A service over the given table. */
    constructor WithDAO(dao: AccountDAO)
      ensures accountDAO == dao
    {
      accountDAO := dao;
    }

    /** The registration checks, in order: the username is not blank, the trimmed password
        has at least four characters, and no stored account has the username as given
        (untrimmed). A failing probe (`probeFault`) reads as a taken username. */
    function ValidateAccount(account: Account, probeFault: bool): (r: Outcome<Reason>)
      reads accountDAO
      ensures r == Fail(BlankUsername) <==> IsBlank(account.username)
      ensures r == Fail(ShortPassword) <==>
                !IsBlank(account.username) && |Trim(account.password)| < MinPasswordLength
      ensures r == Fail(UsernameTaken) <==>
                && !IsBlank(account.username) && |Trim(account.password)| >= MinPasswordLength
                && (probeFault || exists i :: 0 <= i < |accountDAO.rows| && accountDAO.rows[i].username == account.username)
      ensures r == Pass <==>
                && !IsBlank(account.username) && |Trim(account.password)| >= MinPasswordLength
                && !probeFault && forall i :: 0 <= i < |accountDAO.rows| ==> accountDAO.rows[i].username != account.username
    {
      if Trim(account.username) == [] then Fail(BlankUsername)
      else if |Trim(account.password)| < MinPasswordLength then Fail(ShortPassword)
      else if accountDAO.CheckUsernameExists(account.username, probeFault) then Fail(UsernameTaken)
      else Pass
    }

    /** Registration: when the checks pass, a new account with the username and password
        exactly as supplied is inserted and returned with its generated key; otherwise the
        call fails and the table is unchanged. Afterwards the same username is taken. */
    method CreateAccount(account: Account, probeFault: bool, insertFault: bool) returns (r: Result<Account>)
      requires Valid()
      modifies accountDAO
      ensures Valid()
      ensures r.Failure? <==> old(ValidateAccount(account, probeFault)).Fail?
      ensures (r.Failure? || insertFault) ==>
                accountDAO.rows == old(accountDAO.rows) && accountDAO.nextId == old(accountDAO.nextId)
      ensures r.Success? && !insertFault ==>
                && r.value == Account(old(accountDAO.nextId), account.username, account.password)
                && accountDAO.rows == old(accountDAO.rows) + [r.value]
                && accountDAO.nextId == old(accountDAO.nextId) + 1
      ensures r.Success? && insertFault ==> r.value == Account(UnsetId, account.username, account.password)
      ensures r.Success? && !insertFault ==> ValidateAccount(account, false) == Fail(UsernameTaken)
      ensures r.Success? && !insertFault ==> Login(account) == Some(r.value)
    {
      var check := ValidateAccount(account, probeFault);
      if check.Fail? {
        return Failure;
      }
      var created := accountDAO.Insert(Account(UnsetId, account.username, account.password), insertFault);
      r := Success(created);
      if !insertFault {
        RegisteredAccountIsTaken(account, created);
      }
    }

    /** Once an account that passed the first two checks is stored (as the keyless record
        the service builds from it), its username reads as taken and logging in with its
        credentials returns it: a login looks only at the username and the password. */
    lemma RegisteredAccountIsTaken(account: Account, created: Account)
      requires Trim(account.username) != [] && |Trim(account.password)| >= MinPasswordLength
      requires accountDAO.CheckUsernameExists(account.username, false)
      requires accountDAO.ValidateLogin(Account(UnsetId, account.username, account.password)) == Some(created)
      ensures ValidateAccount(account, false) == Fail(UsernameTaken)
      ensures Login(account) == Some(created)
    {
    }

    /** Login: the stored account whose username and password equal the supplied ones
        exactly, or `None` for an unknown username or a wrong password. */
    function Login(account: Account): (r: Option<Account>)
      reads accountDAO
      ensures r.Some? ==> r.value in accountDAO.rows && r.value.username == account.username && r.value.password == account.password
      ensures (forall i :: 0 <= i < |accountDAO.rows| ==> accountDAO.rows[i].username != account.username) ==> r.None?
      ensures Valid() ==>
                (r.Some? <==> exists i :: 0 <= i < |accountDAO.rows|
                                && accountDAO.rows[i].username == account.username && accountDAO.rows[i].password == account.password)
    {
      accountDAO.ValidateLogin(account)
    }

    /** The account with the given key, or `None` when there is none. */
    function GetAccountByID(id: int): (r: Option<Account>)
      reads accountDAO
      ensures r.Some? ==> r.value in accountDAO.rows && r.value.accountId == id
      ensures r.None? <==> forall i :: 0 <= i < |accountDAO.rows| ==> accountDAO.rows[i].accountId != id
    {
      accountDAO.GetAccountByID(id)
    }
  }

  /** Registering the same account twice in a row: the second attempt fails. */
  method RegisterTwice(service: AccountService, account: Account) returns (first: Result<Account>, second: Result<Account>)
    requires service.Valid()
    modifies service.accountDAO
    ensures first.Success? ==> second.Failure?
  {
    first := service.CreateAccount(account, false, false);
    second := service.CreateAccount(account, false, false);
  }
}
