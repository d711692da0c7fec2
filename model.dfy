/** The two records that travel between the layers (the `Model` package). */
module Model {

  /** The id a record carries before storage assigns one: the constructors that take no id
      leave Java's `int` field at its default. */
  const UnsetId: int := 0

  /** A row of the `account` table. */
  datatype Account = Account(accountId: int, username: string, password: string)

  /** A row of the `message` table; `postedBy` refers to an `accountId`. */
  datatype Message = Message(messageId: int, postedBy: int, messageText: string, timePostedEpoch: int)
}
