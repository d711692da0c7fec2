/** The validation and orchestration layer for messages (`Service.MessageService`). */
module MessageServices {
  import opened Wrappers
  import opened Model
  import opened Text
  import opened MessageStore

  /** Why a message is refused, in the order the checks run. */
  datatype Reason = BlankText | TextTooLong | NoAccount

  /** The longest message text accepted. */
  const MaxTextLength: nat := 254

  /** The text rule shared by creation and update: not blank, then at most 254 characters. */
  function CheckText(text: string): (r: Outcome<Reason>)
    ensures r.Pass? <==> !IsBlank(text) && |text| <= MaxTextLength
    ensures r.Pass? ==> 1 <= |text| <= MaxTextLength
    ensures r == Fail(BlankText) <==> IsBlank(text)
    ensures r == Fail(TextTooLong) ==> |text| > MaxTextLength
    ensures r != Fail(NoAccount)
  {
    if IsBlank(text) then Fail(BlankText)
    else if |text| > MaxTextLength then Fail(TextTooLong)
    else Pass
  }

  /** The checks before a message is created, in order: the text rule, then the author's
      account must be present. */
  function ValidateNewMessage(msg: Message, account: Option<Account>): (r: Outcome<Reason>)
    ensures r.Pass? <==> CheckText(msg.messageText).Pass? && account.Some?
    ensures CheckText(msg.messageText).Fail? ==> r == CheckText(msg.messageText)
    ensures r == Fail(NoAccount) <==> CheckText(msg.messageText).Pass? && account.None?
  {
    var text := CheckText(msg.messageText);
    if text.Fail? then text
    else if account.None? then Fail(NoAccount)
    else Pass
  }

  class MessageService {
    const messageDAO: MessageDAO

    ghost predicate Valid()
      reads messageDAO
    {
      messageDAO.Valid()
    }

    /** A service over a new, empty table. */
    constructor ()
      ensures Valid() && fresh(messageDAO) && messageDAO.rows == []
    {
      messageDAO := new MessageDAO();
    }

    /** A service over the given table. */
    constructor WithDAO(dao: MessageDAO)
      ensures messageDAO == dao
    {
      messageDAO := dao;
    }

    /** Creation: when the checks pass, a message with the input's author, text and time
        is inserted and returned with its generated key; otherwise the call fails and
        nothing is inserted. */
    method CreateMessage(msg: Message, account: Option<Account>, insertFault: bool) returns (r: Result<Message>)
      requires Valid()
      modifies messageDAO
      ensures Valid()
      ensures r.Failure? <==> ValidateNewMessage(msg, account).Fail?
      ensures (r.Failure? || insertFault) ==>
                messageDAO.rows == old(messageDAO.rows) && messageDAO.nextId == old(messageDAO.nextId)
      ensures r.Success? && !insertFault ==>
                && r.value == Message(old(messageDAO.nextId), msg.postedBy, msg.messageText, msg.timePostedEpoch)
                && messageDAO.rows == old(messageDAO.rows) + [r.value]
                && messageDAO.nextId == old(messageDAO.nextId) + 1
      ensures r.Success? && insertFault ==> r.value == Message(UnsetId, msg.postedBy, msg.messageText, msg.timePostedEpoch)
    {
      if ValidateNewMessage(msg, account).Fail? {
        return Failure;
      }
      var created := messageDAO.Insert(Message(UnsetId, msg.postedBy, msg.messageText, msg.timePostedEpoch), insertFault);
      r := Success(created);
    }

    /** Every message in the table. */
    method GetAllMessages() returns (r: seq<Message>)
      ensures r == messageDAO.rows
    {
      r := messageDAO.GetAllMessages();
    }

    /** The message with the given key, or `None` when there is none. */
    function GetMessageByID(id: int): (r: Option<Message>)
      reads messageDAO
      ensures r.Some? ==> r.value in messageDAO.rows && r.value.messageId == id
      ensures r.None? <==> forall i :: 0 <= i < |messageDAO.rows| ==> messageDAO.rows[i].messageId != id
    {
      messageDAO.GetMessageByID(id)
    }

    /** Deletion by the key of `msg`: true iff a message with that key existed; afterwards
        there is none, and nothing else changes. */
    method DeleteMessageByID(msg: Message) returns (removed: bool)
      requires Valid()
      modifies messageDAO
      ensures Valid() && messageDAO.nextId == old(messageDAO.nextId)
      ensures removed <==> old(GetMessageByID(msg.messageId)).Some?
      ensures messageDAO.rows == WithoutId(old(messageDAO.rows), msg.messageId)
      ensures !removed ==> messageDAO.rows == old(messageDAO.rows)
      ensures GetMessageByID(msg.messageId).None?
    {
      removed := messageDAO.Delete(msg);
    }

    /** Update: text that fails the text rule is refused before the table is touched;
        otherwise row `id` takes the author, text and time of `msg`, and the result is true
        iff that row existed. */
    method UpdateMessageByID(id: int, msg: Message) returns (r: Result<bool>)
      requires Valid()
      modifies messageDAO
      ensures Valid() && messageDAO.nextId == old(messageDAO.nextId)
      ensures r.Failure? <==> CheckText(msg.messageText).Fail?
      ensures r.Failure? ==> messageDAO.rows == old(messageDAO.rows)
      ensures r.Success? ==> (r.value <==> old(GetMessageByID(id)).Some?)
      ensures r.Success? ==> messageDAO.rows == Overwrite(old(messageDAO.rows), id, msg)
      ensures r == Success(true) ==>
                GetMessageByID(id) == Some(Message(id, msg.postedBy, msg.messageText, msg.timePostedEpoch))
    {
      if CheckText(msg.messageText).Fail? {
        return Failure;
      }
      var updated := messageDAO.Update(id, msg);
      r := Success(updated);
    }

    /** Exactly the messages whose author is `account`, in table order; empty for an
        account that has posted none. */
    method GetAllMessagesByAccountID(account: int) returns (r: seq<Message>)
      ensures r == PostedBy(messageDAO.rows, account)
      ensures forall m :: m in r <==> m in messageDAO.rows && m.postedBy == account
      ensures r == [] <==> forall i :: 0 <= i < |messageDAO.rows| ==> messageDAO.rows[i].postedBy != account
    {
      r := messageDAO.GetAllMessagesByAccountID(account);
    }
  }
}
