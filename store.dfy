/**
 * The four tables the importer writes (database.py:59-127), as an in-memory
 * store: `conversations` keyed by target number, and `messages`, `attachments`
 * and `tapbacks` whose AUTOINCREMENT ids are their positions plus one (rows are
 * never deleted, so ids are handed out in insertion order without gaps).
 * Only the statements the importer issues are modelled: INSERT OR REPLACE and
 * UPDATE on `conversations`, batch INSERTs, the reply UPDATE and the ordered
 * `SELECT id, line_number`.
 */
module Store {
  import opened Basics
  import opened Recognisers
  import opened Transcript

  /** A `conversations` row; `created_at` is left out. */
  datatype ConversationRow = ConversationRow(
    displayName: Option<string>,
    messageCount: nat,
    attachmentCount: nat,
    firstDate: Option<string>,
    lastDate: Option<string>)

  /** A `messages` row; `special_data` (always NULL here) and `created_at` are left out. */
  datatype MessageRow = MessageRow(
    target: string,
    date: string,
    sender: Option<string>,
    text: string,
    isFromMe: bool,
    replyToId: Option<nat>,
    kind: Kind,
    indent: nat,
    readReceipt: Option<ReadReceipt>,
    editedText: Option<string>,
    editTimestamp: Option<string>,
    isUnsent: bool,
    expressive: Option<string>,
    lineNumber: nat,
    isDuplicate: bool)

  datatype AttachmentRow = AttachmentRow(
    messageId: nat,
    target: string,
    filename: string,
    relPath: Option<string>,
    directoryNumber: string,
    size: Option<nat>,
    mimeType: string,
    isSticker: bool)

  datatype TapbackRow = TapbackRow(
    targetMessageId: nat,
    target: string,
    sender: string,
    kind: string,
    isFromMe: bool)

  /**
   * `line_to_db_id` after reading `SELECT id, line_number FROM messages WHERE
   * target_number = ? ORDER BY id` into a dictionary: a later row overwrites an
   * earlier one with the same line number.
   */
  function LineIds(rows: seq<MessageRow>, target: string): map<nat, nat>
  {
    if rows == [] then map[]
    else
      var ids := LineIds(rows[..|rows| - 1], target);
      var row := rows[|rows| - 1];
      if row.target == target then ids[row.lineNumber := |rows|] else ids
  }

  /** `UPDATE messages SET reply_to_message_id = ? WHERE id = ?` for each pair in turn. */
  function WithReplies(rows: seq<MessageRow>, updates: seq<(nat, nat)>): (r: seq<MessageRow>)
    ensures |r| == |rows|
  {
    if updates == [] then rows
    else
      var rows' := WithReplies(rows, updates[..|updates| - 1]);
      var (parent, child) := updates[|updates| - 1];
      if 1 <= child <= |rows'| then rows'[child - 1 := rows'[child - 1].(replyToId := Some(parent))] else rows'
  }

  /** The parent id of the last update in `updates` that targets row id `child`. */
  function LastUpdateFor(updates: seq<(nat, nat)>, child: nat): (r: Option<nat>)
    ensures r.Some? ==> (r.value, child) in updates
  {
    if updates == [] then None
    else if updates[|updates| - 1].1 == child then Some(updates[|updates| - 1].0)
    else LastUpdateFor(updates[..|updates| - 1], child)
  }

  /**
   * After the reply UPDATEs, a row's parent id is the one the last update
   * naming its id wrote, and is unchanged when no update names it.
   */
  lemma {:induction false} WithRepliesAt(rows: seq<MessageRow>, updates: seq<(nat, nat)>, i: nat)
    requires i < |rows|
    ensures var u := LastUpdateFor(updates, i + 1);
      WithReplies(rows, updates)[i] == rows[i].(replyToId := if u.Some? then u else rows[i].replyToId)
  {
    if updates != [] {
      WithRepliesAt(rows, updates[..|updates| - 1], i);
    }
  }

  /** The reply UPDATEs change no column but the parent id. */
  lemma WithRepliesOnlySetsReplies(rows: seq<MessageRow>, updates: seq<(nat, nat)>, i: nat)
    requires i < |rows|
    ensures WithReplies(rows, updates)[i] == rows[i].(replyToId := WithReplies(rows, updates)[i].replyToId)
  {
    WithRepliesAt(rows, updates, i);
  }

  /** The parent id a row ends with, and its line number, which the reply UPDATEs leave alone. */
  lemma WithRepliesColumns(rows: seq<MessageRow>, updates: seq<(nat, nat)>, i: nat)
    requires i < |rows|
    ensures var u := LastUpdateFor(updates, i + 1);
      WithReplies(rows, updates)[i].replyToId == if u.Some? then u else rows[i].replyToId
    ensures WithReplies(rows, updates)[i].lineNumber == rows[i].lineNumber
  {
    WithRepliesAt(rows, updates, i);
  }

  /** A row inserted without a parent id ends with the one the last update naming it wrote, if any. */
  lemma ReplyIdFromUpdates(rows: seq<MessageRow>, updates: seq<(nat, nat)>, i: nat, u: Option<nat>)
    requires i < |rows| && rows[i].replyToId == None
    requires LastUpdateFor(updates, i + 1) == u
    ensures WithReplies(rows, updates)[i].replyToId == u
  {
    WithRepliesColumns(rows, updates, i);
  }

  lemma WithRepliesKeepsLines(rows: seq<MessageRow>, updates: seq<(nat, nat)>)
    ensures forall i :: 0 <= i < |rows| ==> WithReplies(rows, updates)[i].lineNumber == rows[i].lineNumber
  {
    forall i | 0 <= i < |rows| ensures WithReplies(rows, updates)[i].lineNumber == rows[i].lineNumber {
      WithRepliesColumns(rows, updates, i);
    }
  }

  /** The target numbers the rows of `messages` belong to. */
  function Targets(rows: seq<MessageRow>): set<string>
  {
    set r | r in rows :: r.target
  }

  /** The four tables as values. */
  datatype Tables = Tables(
    conversations: map<string, ConversationRow>,
    messages: seq<MessageRow>,
    attachments: seq<AttachmentRow>,
    tapbacks: seq<TapbackRow>)

  class Database {
    var conversations: map<string, ConversationRow>
    var messages: seq<MessageRow>
    var attachments: seq<AttachmentRow>
    var tapbacks: seq<TapbackRow>

    function State(): Tables
      reads this
    {
      Tables(conversations, messages, attachments, tapbacks)
    }

    /** A freshly created schema: every table empty. */
    constructor ()
      ensures conversations == map[] && messages == [] && attachments == [] && tapbacks == []
    {
      conversations := map[];
      messages := [];
      attachments := [];
      tapbacks := [];
    }

    /**
     * `create_database_schema`: the database file is removed and the schema
     * created afresh, so every table starts empty.
     */
    method Reset()
      modifies this
      ensures State() == Tables(map[], [], [], [])
    {
      conversations := map[];
      messages := [];
      attachments := [];
      tapbacks := [];
    }

    /**
     * INSERT OR REPLACE with only the key and the two dates given: any previous
     * row for the target is replaced by one whose other columns take their
     * defaults (no display name, both counts 0).
     */
    method ReplaceConversation(target: string, firstDate: Option<string>, lastDate: Option<string>)
      modifies this
      ensures conversations == old(conversations)[target := ConversationRow(None, 0, 0, firstDate, lastDate)]
      ensures messages == old(messages) && attachments == old(attachments) && tapbacks == old(tapbacks)
    {
      conversations := conversations[target := ConversationRow(None, 0, 0, firstDate, lastDate)];
    }

    /** `UPDATE conversations SET message_count = ?, attachment_count = ? WHERE target_number = ?`. */
    method SetCounts(target: string, messageCount: nat, attachmentCount: nat)
      modifies this
      ensures target in old(conversations) ==>
        conversations == old(conversations)[target := old(conversations)[target].(messageCount := messageCount, attachmentCount := attachmentCount)]
      ensures target !in old(conversations) ==> conversations == old(conversations)
      ensures messages == old(messages) && attachments == old(attachments) && tapbacks == old(tapbacks)
    {
      if target in conversations {
        conversations := conversations[target := conversations[target].(messageCount := messageCount, attachmentCount := attachmentCount)];
      }
    }

    /** A batch INSERT into `messages`: the new rows get the next ids in order. */
    method InsertMessages(rows: seq<MessageRow>)
      modifies this
      ensures messages == old(messages) + rows
      ensures forall k :: 0 <= k < |rows| ==> messages[|old(messages)| + k] == rows[k]
      ensures conversations == old(conversations) && attachments == old(attachments) && tapbacks == old(tapbacks)
    {
      messages := messages + rows;
    }

    method InsertAttachments(rows: seq<AttachmentRow>)
      modifies this
      ensures attachments == old(attachments) + rows
      ensures conversations == old(conversations) && messages == old(messages) && tapbacks == old(tapbacks)
    {
      attachments := attachments + rows;
    }

    method InsertTapbacks(rows: seq<TapbackRow>)
      modifies this
      ensures tapbacks == old(tapbacks) + rows
      ensures conversations == old(conversations) && messages == old(messages) && attachments == old(attachments)
    {
      tapbacks := tapbacks + rows;
    }

    /** The ordered id/line-number query for one target, folded into a dictionary. */
    method LineToId(target: string) returns (ids: map<nat, nat>)
      ensures ids == LineIds(messages, target)
    {
      ids := map[];
      var k := 0;
      while k < |messages|
        invariant k <= |messages|
        invariant ids == LineIds(messages[..k], target)
      {
        assert messages[..k + 1][..k] == messages[..k];
        if messages[k].target == target {
          ids := ids[messages[k].lineNumber := k + 1];
        }
        k := k + 1;
      }
      assert messages[..k] == messages;
    }

    /** `executemany` of the reply UPDATE: rows with other ids are untouched. */
    method UpdateReplies(updates: seq<(nat, nat)>)
      modifies this
      ensures messages == WithReplies(old(messages), updates)
      ensures |messages| == |old(messages)|
      ensures conversations == old(conversations) && attachments == old(attachments) && tapbacks == old(tapbacks)
    {
      var k := 0;
      while k < |updates|
        invariant k <= |updates|
        invariant messages == WithReplies(old(messages), updates[..k])
        invariant |messages| == |old(messages)|
        invariant conversations == old(conversations) && attachments == old(attachments) && tapbacks == old(tapbacks)
      {
        assert updates[..k + 1][..k] == updates[..k];
        var (parent, child) := updates[k];
        if 1 <= child <= |messages| {
          messages := messages[child - 1 := messages[child - 1].(replyToId := Some(parent))];
        }
        k := k + 1;
      }
      assert updates[..k] == updates;
    }
  }
}
