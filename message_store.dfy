/** The data-access layer for the `message` table (`DAO.MessageDAO`). The table is held
    in memory: its rows in insertion order and the counter that generates keys. */
module MessageStore {
  import opened Wrappers
  import opened Model

  /** Keys strictly increase along the rows. */
  ghost predicate Ascending(rows: seq<Message>) {
    forall i, j :: 0 <= i < j < |rows| ==> rows[i].messageId < rows[j].messageId
  }

  /** Keys are positive, below `next` and ascending along the table, hence unique. */
  ghost predicate KeysValid(rows: seq<Message>, next: int) {
    && (forall i :: 0 <= i < |rows| ==> 1 <= rows[i].messageId < next)
    && Ascending(rows)
  }

  /** The position of the first row with the given key, or `|rows|` when there is none. */
  function FirstWithId(rows: seq<Message>, id: int): (k: nat)
    ensures k <= |rows|
    ensures k < |rows| ==> rows[k].messageId == id
    ensures forall j :: 0 <= j < k ==> rows[j].messageId != id
  {
    if rows == [] then 0
    else if rows[0].messageId == id then 0
    else 1 + FirstWithId(rows[1..], id)
  }

  /** The rows whose author is `account`, in table order
      (the result of `SELECT * FROM message WHERE posted_by = ?`). */
  function PostedBy(rows: seq<Message>, account: int): (r: seq<Message>)
    ensures |r| <= |rows|
    ensures forall m :: m in r <==> m in rows && m.postedBy == account
    ensures r == [] <==> forall i :: 0 <= i < |rows| ==> rows[i].postedBy != account
  {
    if rows == [] then []
    else
      var last := rows[|rows| - 1];
      var front := rows[..|rows| - 1];
      assert rows == front + [last];
      PostedBy(front, account) + (if last.postedBy == account then [last] else [])
  }

  /** The filter keeps each row by the account as often as the table holds it, and no other row. */
  lemma {:induction false} PostedByCounts(rows: seq<Message>, account: int, m: Message)
    ensures multiset(PostedBy(rows, account))[m] == if m.postedBy == account then multiset(rows)[m] else 0
  {
    if rows != [] {
      var last := rows[|rows| - 1];
      var front := rows[..|rows| - 1];
      assert rows == front + [last];
      assert multiset(rows) == multiset(front) + multiset([last]);
      PostedByCounts(front, account, m);
    }
  }

  /** The filter keeps table order: over a table with ascending keys, the rows it
      returns have ascending keys too. Together with the multiplicities stated by
      `PostedByCounts`, this fixes the result completely. */
  lemma {:induction false} PostedByKeepsKeyOrder(rows: seq<Message>, account: int)
    requires Ascending(rows)
    ensures Ascending(PostedBy(rows, account))
  {
    if rows != [] {
      var last := rows[|rows| - 1];
      var front := rows[..|rows| - 1];
      assert Ascending(front);
      PostedByKeepsKeyOrder(front, account);
      var f := PostedBy(front, account);
      if last.postedBy == account {
        AppendLargerKey(f, front, last);
      }
    }
  }

  /** Appending a row whose key exceeds every key of `front` to rows drawn from `front`
      keeps the keys ascending. */
  lemma AppendLargerKey(f: seq<Message>, front: seq<Message>, last: Message)
    requires Ascending(f)
    requires forall m :: m in f ==> m in front
    requires forall i :: 0 <= i < |front| ==> front[i].messageId < last.messageId
    ensures Ascending(f + [last])
  {
    var r := f + [last];
    forall i, j | 0 <= i < j < |r| ensures r[i].messageId < r[j].messageId {
      assert r[i] == f[i] && f[i] in f;
      if j < |f| {
        assert r[j] == f[j];
      }
    }
  }

  /** The table after `DELETE FROM message WHERE message_id = ?`. */
  function WithoutId(rows: seq<Message>, id: int): (r: seq<Message>)
    ensures forall m :: m in r <==> m in rows && m.messageId != id
    ensures (forall i :: 0 <= i < |rows| ==> rows[i].messageId != id) ==> r == rows
  {
    if rows == [] then []
    else if rows[0].messageId == id then WithoutId(rows[1..], id)
    else [rows[0]] + WithoutId(rows[1..], id)
  }

  /** Deleting rows keeps the keys valid. */
  lemma {:induction false} WithoutIdKeepsKeysValid(rows: seq<Message>, id: int, next: int)
    requires KeysValid(rows, next)
    ensures KeysValid(WithoutId(rows, id), next)
  {
    if rows != [] {
      var tail := WithoutId(rows[1..], id);
      WithoutIdKeepsKeysValid(rows[1..], id, next);
      if rows[0].messageId != id {
        PrependFirstRow(rows, tail, next);
      }
    }
  }

  /** Putting the first row of a valid table in front of valid rows drawn from the rest of
      that table keeps the keys valid: the first key is below every later one. */
  lemma PrependFirstRow(rows: seq<Message>, t: seq<Message>, next: int)
    requires rows != [] && KeysValid(rows, next) && KeysValid(t, next)
    requires forall m :: m in t ==> m in rows[1..]
    ensures KeysValid([rows[0]] + t, next)
  {
    var r := [rows[0]] + t;
    forall j | 0 < j < |r| ensures rows[0].messageId < r[j].messageId {
      assert r[j] == t[j - 1] && t[j - 1] in t;
      var k :| 0 <= k < |rows[1..]| && rows[1..][k] == r[j];
      assert rows[k + 1] == r[j];
    }
    forall i, j | 0 <= i < j < |r| ensures r[i].messageId < r[j].messageId {
      if i > 0 {
        assert r[i] == t[i - 1] && r[j] == t[j - 1];
      }
    }
    forall i | 0 <= i < |r| ensures 1 <= r[i].messageId < next {
      if i > 0 {
        assert r[i] == t[i - 1];
      }
    }
  }

  /** The table after `UPDATE message SET posted_by = ?, message_text = ?, time_posted_epoch = ?
      WHERE message_id = ?` with the fields of `msg`. */
  function Overwrite(rows: seq<Message>, id: int, msg: Message): (r: seq<Message>)
    ensures |r| == |rows|
    ensures forall i :: 0 <= i < |rows| ==> r[i].messageId == rows[i].messageId
    ensures forall i :: 0 <= i < |rows| && rows[i].messageId != id ==> r[i] == rows[i]
    ensures forall i :: 0 <= i < |rows| && rows[i].messageId == id ==>
              r[i].postedBy == msg.postedBy && r[i].messageText == msg.messageText
              && r[i].timePostedEpoch == msg.timePostedEpoch
  {
    seq(|rows|, i requires 0 <= i < |rows| =>
      if rows[i].messageId == id
      then rows[i].(postedBy := msg.postedBy, messageText := msg.messageText, timePostedEpoch := msg.timePostedEpoch)
      else rows[i])
  }

  /** Two tables whose rows carry the same keys position by position find a key at the same position. */
  lemma FirstWithIdSameKeys(a: seq<Message>, b: seq<Message>, id: int)
    requires |a| == |b|
    requires forall i :: 0 <= i < |a| ==> a[i].messageId == b[i].messageId
    ensures FirstWithId(a, id) == FirstWithId(b, id)
  {
  }

  /** When the update supplies the author and time the row already has, only the text changes. */
  lemma OverwriteEchoingFieldsChangesOnlyText(rows: seq<Message>, id: int, msg: Message, i: nat)
    requires i < |rows| && rows[i].messageId == id
    requires msg.postedBy == rows[i].postedBy && msg.timePostedEpoch == rows[i].timePostedEpoch
    ensures Overwrite(rows, id, msg)[i] == rows[i].(messageText := msg.messageText)
  {
  }

  class MessageDAO {
    /** The rows of the table, oldest first. */
    var rows: seq<Message>
    /** The key the next successful insert receives (an auto-increment column). */
    var nextId: int

    ghost predicate Valid()
      reads this
    {
      1 <= nextId && KeysValid(rows, nextId)
    }

    /** An empty table. */
    constructor ()
      ensures Valid() && rows == [] && nextId == 1
    {
      rows := [];
      nextId := 1;
    }

    /** `INSERT INTO message (posted_by, message_text, time_posted_epoch)`: returns a new
        message with the generated key and the input's other fields. When the statement
        fails (`fault`), nothing is written and the input comes back unchanged. */
    method Insert(msg: Message, fault: bool) returns (r: Message)
      requires Valid()
      modifies this
      ensures Valid()
      ensures fault ==> r == msg && rows == old(rows) && nextId == old(nextId)
      ensures !fault ==> r == Message(old(nextId), msg.postedBy, msg.messageText, msg.timePostedEpoch)
      ensures !fault ==> rows == old(rows) + [r] && nextId == old(nextId) + 1
      ensures !fault ==> forall i :: 0 <= i < |old(rows)| ==> old(rows)[i].messageId != r.messageId
      ensures !fault ==> GetMessageByID(r.messageId) == Some(r)
    {
      if fault {
        return msg;
      }
      r := Message(nextId, msg.postedBy, msg.messageText, msg.timePostedEpoch);
      rows := rows + [r];
      nextId := nextId + 1;
      assert rows[|rows| - 1] == r;
    }

    /** `SELECT * FROM message`, collected row by row: every row of the table, in table order. */
    method GetAllMessages() returns (r: seq<Message>)
      ensures r == rows
    {
      r := [];
      var i := 0;
      while i < |rows|
        invariant 0 <= i <= |rows|
        invariant r == rows[..i]
      {
        r := r + [rows[i]];
        i := i + 1;
      }
    }

    /** `SELECT * FROM message WHERE message_id = ?`: the row with that key, or `None`. */
    function GetMessageByID(id: int): (r: Option<Message>)
      reads this
      ensures r.Some? ==> r.value in rows && r.value.messageId == id
      ensures r.None? <==> forall i :: 0 <= i < |rows| ==> rows[i].messageId != id
    {
      var k := FirstWithId(rows, id);
      if k < |rows| then Some(rows[k]) else None
    }

    /** A key the counter has not yet issued finds no message. */
    lemma NeverIssuedKeyIsAbsent(id: int)
      requires Valid() && (id < 1 || nextId <= id)
      ensures GetMessageByID(id).None?
    {
    }

    /** `DELETE FROM message WHERE message_id = ?` with the key of `msg`; reports whether a
        row was affected. Afterwards no row has that key and the other rows remain. */
    method Delete(msg: Message) returns (removed: bool)
      requires Valid()
      modifies this
      ensures Valid() && nextId == old(nextId)
      ensures removed <==> exists i :: 0 <= i < |old(rows)| && old(rows)[i].messageId == msg.messageId
      ensures rows == WithoutId(old(rows), msg.messageId)
      ensures !removed ==> rows == old(rows)
      ensures GetMessageByID(msg.messageId).None?
    {
      var k := FirstWithId(rows, msg.messageId);
      removed := k < |rows|;
      WithoutIdKeepsKeysValid(rows, msg.messageId, nextId);
      rows := WithoutId(rows, msg.messageId);
      assert forall i :: 0 <= i < |rows| ==> rows[i] in rows;
    }

    /** The `UPDATE` above on row `id`; reports whether a row was affected. The key of every
        row stays, and rows with other keys are untouched. */
    method Update(id: int, msg: Message) returns (updated: bool)
      requires Valid()
      modifies this
      ensures Valid() && nextId == old(nextId)
      ensures updated <==> exists i :: 0 <= i < |old(rows)| && old(rows)[i].messageId == id
      ensures rows == Overwrite(old(rows), id, msg)
      ensures !updated ==> rows == old(rows)
      ensures updated ==> GetMessageByID(id) == Some(Message(id, msg.postedBy, msg.messageText, msg.timePostedEpoch))
      ensures forall k :: GetMessageByID(k).Some? <==> old(GetMessageByID(k)).Some?
    {
      var k := FirstWithId(rows, id);
      updated := k < |rows|;
      ghost var before := rows;
      rows := Overwrite(rows, id, msg);
      assert !updated ==> rows == before;
      forall j {
        FirstWithIdSameKeys(before, rows, j);
      }
    }

    /** `SELECT * FROM message WHERE posted_by = ?`, collected row by row: exactly the rows
        whose author is `account`, in table order. */
    method GetAllMessagesByAccountID(account: int) returns (r: seq<Message>)
      ensures r == PostedBy(rows, account)
    {
      r := [];
      var i := 0;
      while i < |rows|
        invariant 0 <= i <= |rows|
        invariant r == PostedBy(rows[..i], account)
      {
        assert rows[..i + 1][..i] == rows[..i];
        if rows[i].postedBy == account {
          r := r + [rows[i]];
        }
        i := i + 1;
      }
      assert rows[..i] == rows;
    }
  }
}
