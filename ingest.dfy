/**
 * The pure decisions of `import_conversation` (database.py:407-536) and of
 * `_find_parent_message_line` (database.py:538-557): which rows are built from
 * the parsed lists, which reply edges are written, and the two counts.
 */
module Ingest {
  import opened Basics
  import opened Recognisers
  import opened AttachmentIndex
  import opened Transcript
  import opened TranscriptProperties
  import opened Store

  // ---------------------------------------------------------------------
  // `_find_parent_message_line`

  /** The first index at or after `i` whose message has line number `line`. */
  function IndexOfLine(ms: seq<Message>, line: nat, i: nat): (r: Option<nat>)
    requires i <= |ms|
    decreases |ms| - i
    ensures r.Some? ==> i <= r.value < |ms| && ms[r.value].lineNumber == line
  {
    if i == |ms| then None
    else if ms[i].lineNumber == line then Some(i)
    else IndexOfLine(ms, line, i + 1)
  }

  /** No message between `i` and the index found has the line number sought. */
  lemma {:induction false} IndexOfLineIsFirst(ms: seq<Message>, line: nat, i: nat)
    requires i <= |ms|
    decreases |ms| - i
    ensures var r := IndexOfLine(ms, line, i);
      forall k :: i <= k < |ms| && (r.None? || k < r.value) ==> ms[k].lineNumber != line
  {
    if i < |ms| && ms[i].lineNumber != line {
      IndexOfLineIsFirst(ms, line, i + 1);
    }
  }

  /** Scanning back from index `i - 1`: the nearest message indented less than `indent`. */
  function NearestShallower(ms: seq<Message>, i: nat, indent: nat): (r: Option<nat>)
    requires i <= |ms|
    ensures r.Some? ==> r.value < i && ms[r.value].indent < indent
  {
    if i == 0 then None
    else if ms[i - 1].indent < indent then Some(i - 1)
    else NearestShallower(ms, i - 1, indent)
  }

  /** No message between the index found and `i` is indented less. */
  lemma {:induction false} NearestShallowerIsNearest(ms: seq<Message>, i: nat, indent: nat)
    requires i <= |ms|
    ensures var r := NearestShallower(ms, i, indent);
      forall k :: 0 <= k < i && (r.None? || r.value < k) ==> ms[k].indent >= indent
  {
    if i > 0 && ms[i - 1].indent >= indent {
      NearestShallowerIsNearest(ms, i - 1, indent);
    }
  }

  /** `_find_parent_message_line(messages, m)`. */
  function FindParentLine(ms: seq<Message>, m: Message): Option<nat>
  {
    match IndexOfLine(ms, m.lineNumber, 0)
    case None => None
    case Some(i) =>
      if m.indent == 0 then None
      else match NearestShallower(ms, i, m.indent)
        case None => None
        case Some(j) => Some(ms[j].lineNumber)
  }

  /** An unindented message, or one whose line is not in the list, has no parent. */
  lemma FindParentLineNone(ms: seq<Message>, m: Message)
    ensures m.indent == 0 ==> FindParentLine(ms, m).None?
    ensures (forall k :: 0 <= k < |ms| ==> ms[k].lineNumber != m.lineNumber) ==> FindParentLine(ms, m).None?
  {
    match IndexOfLine(ms, m.lineNumber, 0)
    case None =>
    case Some(i) =>
  }

  /** `i` is the first index whose message has line number `line`. */
  predicate FirstWithLine(ms: seq<Message>, line: nat, i: nat)
  {
    i < |ms| && ms[i].lineNumber == line && forall k :: 0 <= k < i ==> ms[k].lineNumber != line
  }

  /** `j` is the nearest index before `i` whose message is indented less than `indent`. */
  predicate NearestShallowerAt(ms: seq<Message>, i: nat, indent: nat, j: nat)
  {
    j < i <= |ms| && ms[j].indent < indent && forall k :: j < k < i ==> ms[k].indent >= indent
  }

  /**
   * A parent found is the line of the nearest message indented less that comes
   * before the first message with the line sought.
   */
  lemma FindParentLineFound(ms: seq<Message>, m: Message)
    ensures FindParentLine(ms, m).Some? ==>
      exists i: nat, j: nat :: FirstWithLine(ms, m.lineNumber, i) && NearestShallowerAt(ms, i, m.indent, j)
        && FindParentLine(ms, m) == Some(ms[j].lineNumber)
  {
    match IndexOfLine(ms, m.lineNumber, 0)
    case None =>
    case Some(i) =>
      if m.indent > 0 {
        match NearestShallower(ms, i, m.indent)
        case None =>
        case Some(j) =>
          IndexOfLineIsFirst(ms, m.lineNumber, 0);
          NearestShallowerIsNearest(ms, i, m.indent);
          assert FirstWithLine(ms, m.lineNumber, i);
          assert NearestShallowerAt(ms, i, m.indent, j);
      }
  }

  /**
   * When an indented message's line is present but no parent is found, every
   * message before the first one with that line is indented at least as deeply.
   */
  lemma FindParentLineMissing(ms: seq<Message>, m: Message)
    ensures FindParentLine(ms, m).None? && m.indent > 0 ==>
      forall i :: 0 <= i < |ms| && ms[i].lineNumber == m.lineNumber ==>
        exists i0 :: 0 <= i0 <= i && ms[i0].lineNumber == m.lineNumber && forall k :: 0 <= k < i0 ==> ms[k].indent >= m.indent
  {
    match IndexOfLine(ms, m.lineNumber, 0)
    case None =>
      IndexOfLineIsFirst(ms, m.lineNumber, 0);
    case Some(i0) =>
      if FindParentLine(ms, m).None? && m.indent > 0 {
        IndexOfLineIsFirst(ms, m.lineNumber, 0);
        NearestShallowerIsNearest(ms, i0, m.indent);
        forall i | 0 <= i < |ms| && ms[i].lineNumber == m.lineNumber
          ensures exists i0 :: 0 <= i0 <= i && ms[i0].lineNumber == m.lineNumber && forall k :: 0 <= k < i0 ==> ms[k].indent >= m.indent
        {
          assert i0 <= i && ms[i0].lineNumber == m.lineNumber;
        }
      }
  }

  /**
   * For the parsed list (line numbers strictly increasing) the parent of
   * message `k` is the line of the nearest earlier message indented less, so
   * it is always an earlier line.
   */
  lemma ParentOfParsedMessage(ms: seq<Message>, k: nat)
    requires k < |ms|
    requires forall i, j :: 0 <= i < j < |ms| ==> ms[i].lineNumber < ms[j].lineNumber
    ensures FindParentLine(ms, ms[k]).Some? <==> ms[k].indent > 0 && exists j :: 0 <= j < k && ms[j].indent < ms[k].indent
    ensures FindParentLine(ms, ms[k]).Some? ==>
      exists j :: 0 <= j < k && ms[j].indent < ms[k].indent
        && (forall i :: j < i < k ==> ms[i].indent >= ms[k].indent)
        && FindParentLine(ms, ms[k]).value == ms[j].lineNumber
        && ms[j].lineNumber < ms[k].lineNumber
  {
    var found := IndexOfLine(ms, ms[k].lineNumber, 0);
    IndexOfLineIsFirst(ms, ms[k].lineNumber, 0);
    assert found.Some? && found.value <= k;
    assert found == Some(k);
    if ms[k].indent > 0 {
      NearestShallowerIsNearest(ms, k, ms[k].indent);
    }
  }

  // ---------------------------------------------------------------------
  // The rows built from the parsed lists

  /** The row inserted for a message: no reply id yet, and the edit split into its two captures. */
  function RowOf(target: string, m: Message): MessageRow
  {
    MessageRow(target, m.date, m.sender, m.text, m.isFromMe, None, m.kind, m.indent, m.readReceipt,
               if m.edit.Some? then Some(m.edit.value.text) else None,
               if m.edit.Some? then Some(m.edit.value.stamp) else None,
               m.kind == UnsentMessage, m.expressive, m.lineNumber, m.isDuplicate)
  }

  function MessageRows(target: string, ms: seq<Message>): (rows: seq<MessageRow>)
    ensures |rows| == |ms|
  {
    seq(|ms|, k requires 0 <= k < |ms| => RowOf(target, ms[k]))
  }

  /**
   * The reply edge written for message `m`, as (parent id, child id): only when
   * its provisional parent is set, its own line has an id, and the parent line
   * the backward scan finds is non-zero and has an id.
   */
  function ReplyEdge(ms: seq<Message>, m: Message, ids: map<nat, nat>): Option<(nat, nat)>
  {
    if m.replyTo.Some? && m.lineNumber in ids then
      match FindParentLine(ms, m)
      case Some(parent) =>
        if parent != 0 && parent in ids then Some((ids[parent], ids[m.lineNumber])) else None
      case None => None
    else None
  }

  /** The values of the `Some` entries of `xs`, in order. */
  function Present<T>(xs: seq<Option<T>>): (r: seq<T>)
    ensures |r| <= |xs|
  {
    if xs == [] then []
    else Present(xs[..|xs| - 1]) + (if xs[|xs| - 1].Some? then [xs[|xs| - 1].value] else [])
  }

  lemma {:induction false} PresentMember<T>(xs: seq<Option<T>>, e: T)
    ensures e in Present(xs) <==> exists k :: 0 <= k < |xs| && xs[k] == Some(e)
  {
    if xs != [] {
      var init := xs[..|xs| - 1];
      PresentMember(init, e);
      if exists k :: 0 <= k < |xs| && xs[k] == Some(e) {
        var k :| 0 <= k < |xs| && xs[k] == Some(e);
        if k < |xs| - 1 { assert init[k] == Some(e); }
      }
      if e in Present(init) {
        var k :| 0 <= k < |init| && init[k] == Some(e);
        assert xs[k] == Some(e);
      }
    }
  }

  /** The candidate edge of every message, in message order. */
  function Edges(ms: seq<Message>, ids: map<nat, nat>): (es: seq<Option<(nat, nat)>>)
    ensures |es| == |ms|
  {
    seq(|ms|, k requires 0 <= k < |ms| => ReplyEdge(ms, ms[k], ids))
  }

  /** The `reply_updates` list: the edges that passed the gate, in message order. */
  function ReplyUpdates(ms: seq<Message>, ids: map<nat, nat>): seq<(nat, nat)>
  {
    Present(Edges(ms, ids))
  }

  /** The row inserted for a descriptor whose message line has id `id`. */
  function AttachmentRowOf(target: string, a: AttachmentRecord, id: nat): AttachmentRow
  {
    AttachmentRow(id, target, a.filename, a.relPath, a.directoryNumber, a.size, GuessMimeType(a.filename), a.isSticker)
  }

  /** `attachment_data`: one row per descriptor whose message line has an id, in order. */
  function AttachmentData(target: string, atts: seq<AttachmentRecord>, ids: map<nat, nat>): seq<AttachmentRow>
  {
    if atts == [] then []
    else
      var a := atts[|atts| - 1];
      AttachmentData(target, atts[..|atts| - 1], ids) +
        (if a.messageLine in ids then [AttachmentRowOf(target, a, ids[a.messageLine])] else [])
  }

  function TapbackRowOf(target: string, t: Tapback, id: nat): TapbackRow
  {
    TapbackRow(id, target, t.reaction.sender, Label(t.reaction.kind), t.reaction.isFromMe)
  }

  /** `tapback_data`: one row per tapback whose target line has an id, in order. */
  function TapbackData(target: string, tbs: seq<Tapback>, ids: map<nat, nat>): seq<TapbackRow>
  {
    if tbs == [] then []
    else
      var t := tbs[|tbs| - 1];
      TapbackData(target, tbs[..|tbs| - 1], ids) +
        (if t.targetLine in ids then [TapbackRowOf(target, t, ids[t.targetLine])] else [])
  }

  /** `message_count`: the messages not flagged as duplicates. */
  function MessageCount(ms: seq<Message>): (c: nat)
    ensures c <= |ms|
  {
    if ms == [] then 0
    else MessageCount(ms[..|ms| - 1]) + (if ms[|ms| - 1].isDuplicate then 0 else 1)
  }

  // ---------------------------------------------------------------------
  // Properties

  /**
   * When no earlier row belongs to the target, the ids read back for a batch
   * of messages with distinct line numbers are their insertion positions:
   * message `k` of the batch gets id `|before| + k + 1`, and only its lines
   * have ids.
   */
  lemma {:induction false} PositionalIds(before: seq<MessageRow>, target: string, ms: seq<Message>)
    requires forall r :: r in before ==> r.target != target
    requires forall i, j :: 0 <= i < j < |ms| ==> ms[i].lineNumber != ms[j].lineNumber
    ensures forall line :: line in LineIds(before + MessageRows(target, ms), target) <==>
      exists k :: 0 <= k < |ms| && ms[k].lineNumber == line
    ensures forall k :: 0 <= k < |ms| ==> LineIds(before + MessageRows(target, ms), target)[ms[k].lineNumber] == |before| + k + 1
  {
    if ms == [] {
      NoRowsNoIds(before, target);
      assert before + MessageRows(target, ms) == before;
    } else {
      var init := ms[..|ms| - 1];
      PositionalIds(before, target, init);
      LastRowId(before, target, ms);
      IdsExtend(LineIds(before + MessageRows(target, init), target), LineIds(before + MessageRows(target, ms), target),
                ms, init, |before|);
    }
  }

  /** Giving the last message of a batch the next id extends the positional ids of the rest to the whole batch. */
  lemma IdsExtend(prev: map<nat, nat>, ids: map<nat, nat>, ms: seq<Message>, init: seq<Message>, base: nat)
    requires ms != [] && init == ms[..|ms| - 1] && ids == prev[ms[|ms| - 1].lineNumber := base + |ms|]
    requires forall i, j :: 0 <= i < j < |ms| ==> ms[i].lineNumber != ms[j].lineNumber
    requires forall line :: line in prev <==> exists k :: 0 <= k < |init| && init[k].lineNumber == line
    requires forall k :: 0 <= k < |init| ==> prev[init[k].lineNumber] == base + k + 1
    ensures forall line :: line in ids <==> exists k :: 0 <= k < |ms| && ms[k].lineNumber == line
    ensures forall k :: 0 <= k < |ms| ==> ids[ms[k].lineNumber] == base + k + 1
  {
    forall line ensures line in ids <==> exists k :: 0 <= k < |ms| && ms[k].lineNumber == line {
      if exists k :: 0 <= k < |ms| && ms[k].lineNumber == line {
        var k :| 0 <= k < |ms| && ms[k].lineNumber == line;
        if k < |ms| - 1 { assert init[k].lineNumber == line; }
      }
    }
    forall k | 0 <= k < |ms| ensures ids[ms[k].lineNumber] == base + k + 1 {
      if k < |ms| - 1 { assert init[k] == ms[k]; }
    }
  }

  /** The row of a batch's last message gives its line the id of the whole table's length. */
  lemma LastRowId(before: seq<MessageRow>, target: string, ms: seq<Message>)
    requires ms != []
    ensures LineIds(before + MessageRows(target, ms), target) ==
      LineIds(before + MessageRows(target, ms[..|ms| - 1]), target)[ms[|ms| - 1].lineNumber := |before| + |ms|]
  {
    var rows := RowsSnoc(before, target, ms);
    LineIdsSnoc(before + MessageRows(target, ms[..|ms| - 1]), RowOf(target, ms[|ms| - 1]), target);
  }

  /** Appending a row of the target gives its line the new table length as id; other rows change nothing. */
  lemma LineIdsSnoc(head: seq<MessageRow>, row: MessageRow, target: string)
    ensures LineIds(head + [row], target) ==
      if row.target == target then LineIds(head, target)[row.lineNumber := |head| + 1] else LineIds(head, target)
  {
    assert (head + [row])[..|head|] == head;
  }

  /** The rows of a batch are the rows of all but its last message, then the last message's row. */
  lemma RowsSnoc(before: seq<MessageRow>, target: string, ms: seq<Message>) returns (rows: seq<MessageRow>)
    requires ms != []
    ensures rows == before + MessageRows(target, ms)
    ensures rows == before + MessageRows(target, ms[..|ms| - 1]) + [RowOf(target, ms[|ms| - 1])]
  {
    rows := before + MessageRows(target, ms);
    var init := ms[..|ms| - 1];
    var head := before + MessageRows(target, init);
    forall k | 0 <= k < |rows| ensures rows[k] == (head + [RowOf(target, ms[|ms| - 1])])[k] {
      if |before| <= k < |rows| - 1 { assert init[k - |before|] == ms[k - |before|]; }
    }
  }

  lemma {:induction false} NoRowsNoIds(rows: seq<MessageRow>, target: string)
    requires forall r :: r in rows ==> r.target != target
    ensures LineIds(rows, target) == map[]
  {
    if rows != [] {
      NoRowsNoIds(rows[..|rows| - 1], target);
    }
  }

  /**
   * The gate of the reply loop: an edge is written exactly when the message
   * has a provisional parent and an id, and the backward scan finds a non-zero
   * parent line that has an id; it links those two ids.
   */
  lemma ReplyEdgeGate(ms: seq<Message>, m: Message, ids: map<nat, nat>)
    ensures ReplyEdge(ms, m, ids).Some? <==>
      m.replyTo.Some? && m.lineNumber in ids && FindParentLine(ms, m).Some?
      && FindParentLine(ms, m).value != 0 && FindParentLine(ms, m).value in ids
    ensures ReplyEdge(ms, m, ids).Some? ==>
      ReplyEdge(ms, m, ids).value == (ids[FindParentLine(ms, m).value], ids[m.lineNumber])
  {
  }

  /**
   * The line-0 quirk on the smallest example: a reply on line 1 whose parent
   * is the unindented message on line 0 finds that parent, but the gate
   * treats parent line 0 as "none", so no reply edge is written at all.
   */
  lemma ReplyToLineZeroNotLinked(first: Message, reply: Message, ids: map<nat, nat>)
    requires first.lineNumber == 0 && first.indent == 0
    requires reply.lineNumber == 1 && reply.indent == 1 && reply.replyTo.Some?
    ensures FindParentLine([first, reply], reply) == Some(0)
    ensures ReplyUpdates([first, reply], ids) == []
  {
    var ms := [first, reply];
    assert IndexOfLine(ms, 1, 0) == Some(1);
    assert NearestShallower(ms, 1, 1) == Some(0);
    FindParentLineNone(ms, first);
    var es: seq<Option<(nat, nat)>> := [None, None];
    assert Edges(ms, ids) == es;
    assert es[..1] == [None] && es[..0] == [];
  }

  /** The update list holds the edge of every message that passed the gate, and nothing else. */
  lemma ReplyUpdatesAreEdges(ms: seq<Message>, ids: map<nat, nat>)
    ensures |ReplyUpdates(ms, ids)| <= |ms|
    ensures forall e :: e in ReplyUpdates(ms, ids) <==> exists k :: 0 <= k < |ms| && ReplyEdge(ms, ms[k], ids) == Some(e)
  {
    var es := Edges(ms, ids);
    forall e ensures e in ReplyUpdates(ms, ids) <==> exists k :: 0 <= k < |ms| && ReplyEdge(ms, ms[k], ids) == Some(e) {
      PresentMember(es, e);
      if e in ReplyUpdates(ms, ids) {
        assert e in Present(es);
        var k :| 0 <= k < |es| && es[k] == Some(e);
        assert ReplyEdge(ms, ms[k], ids) == Some(e);
      }
      if exists k :: 0 <= k < |ms| && ReplyEdge(ms, ms[k], ids) == Some(e) {
        var k :| 0 <= k < |ms| && ReplyEdge(ms, ms[k], ids) == Some(e);
        assert es[k] == Some(e);
      }
    }
  }

  /**
   * The ids of a first import: message `k` of the batch has id `base + k + 1`.
   */
  ghost predicate Positional(ids: map<nat, nat>, ms: seq<Message>, base: nat)
  {
    forall k :: 0 <= k < |ms| ==> ms[k].lineNumber in ids && ids[ms[k].lineNumber] == base + k + 1
  }

  /**
   * With positional ids, a message whose provisional parent is set gets the id
   * of the line the backward scan finds, unless that line is 0; a parsed parent
   * always precedes its child, so each edge points to an earlier row of the
   * same batch.
   */
  lemma EdgeOfMessage(ms: seq<Message>, ids: map<nat, nat>, base: nat, k: nat)
    requires forall i, j :: 0 <= i < j < |ms| ==> ms[i].lineNumber < ms[j].lineNumber
    requires Positional(ids, ms, base)
    requires k < |ms|
    ensures var edge := ReplyEdge(ms, ms[k], ids);
      && (edge.Some? <==> ms[k].replyTo.Some? && FindParentLine(ms, ms[k]).Some? && FindParentLine(ms, ms[k]).value != 0)
      && (edge.Some? ==>
            && edge.value.1 == base + k + 1
            && exists j :: 0 <= j < k && ms[j].lineNumber == FindParentLine(ms, ms[k]).value && edge.value.0 == base + j + 1)
  {
    ParentOfParsedMessage(ms, k);
    ReplyEdgeGate(ms, ms[k], ids);
  }

  /** The index within the batch of the message an edge points to. */
  lemma EdgeParentIndex(ms: seq<Message>, ids: map<nat, nat>, base: nat, k: nat) returns (j: nat)
    requires forall i, j :: 0 <= i < j < |ms| ==> ms[i].lineNumber < ms[j].lineNumber
    requires Positional(ids, ms, base)
    requires k < |ms|
    ensures var edge := ReplyEdge(ms, ms[k], ids);
      edge.Some? ==> FindParentLine(ms, ms[k]).Some? && j < k && ms[j].lineNumber == FindParentLine(ms, ms[k]).value && edge.value.0 == base + j + 1
  {
    EdgeOfMessage(ms, ids, base, k);
    var edge := ReplyEdge(ms, ms[k], ids);
    if edge.Some? {
      j :| 0 <= j < k && ms[j].lineNumber == FindParentLine(ms, ms[k]).value && edge.value.0 == base + j + 1;
    } else {
      j := 0;
    }
  }

  /** With positional ids, the update naming message `k`'s row is that message's edge. */
  lemma UpdateForMessage(ms: seq<Message>, ids: map<nat, nat>, base: nat, k: nat)
    requires Positional(ids, ms, base)
    requires k < |ms|
    ensures var edge := ReplyEdge(ms, ms[k], ids);
      LastUpdateFor(ReplyUpdates(ms, ids), base + k + 1) == if edge.Some? then Some(edge.value.0) else None
  {
    var es := Edges(ms, ids);
    forall j | 0 <= j < |es| && es[j].Some? ensures es[j].value.1 == base + j + 1 {
      ReplyEdgeGate(ms, ms[j], ids);
    }
    LastUpdateOfPresent(es, base + k + 1, k);
  }

  /** With positional ids, no update names a row before the batch. */
  lemma NoUpdateBefore(ms: seq<Message>, ids: map<nat, nat>, base: nat, child: nat)
    requires Positional(ids, ms, base)
    requires child <= base
    ensures LastUpdateFor(ReplyUpdates(ms, ids), child) == None
  {
    var es := Edges(ms, ids);
    forall j | 0 <= j < |es| && es[j].Some? ensures es[j].value.1 != child {
      ReplyEdgeGate(ms, ms[j], ids);
    }
    NoUpdateFor(es, child);
  }

  /** Only descriptors of unmapped lines are skipped, and each kept one carries its line's id. */
  lemma {:induction false} AttachmentDataKeepsMapped(target: string, atts: seq<AttachmentRecord>, ids: map<nat, nat>)
    ensures (forall a :: a in atts ==> a.messageLine in ids) ==> |AttachmentData(target, atts, ids)| == |atts|
    ensures |AttachmentData(target, atts, ids)| <= |atts|
    ensures forall r :: r in AttachmentData(target, atts, ids) ==>
      exists a :: a in atts && a.messageLine in ids && r == AttachmentRowOf(target, a, ids[a.messageLine])
  {
    if atts != [] {
      var init := atts[..|atts| - 1];
      AttachmentDataKeepsMapped(target, init, ids);
      assert forall a :: a in init ==> a in atts;
    }
  }

  lemma {:induction false} TapbackDataKeepsMapped(target: string, tbs: seq<Tapback>, ids: map<nat, nat>)
    ensures (forall t :: t in tbs ==> t.targetLine in ids) ==> |TapbackData(target, tbs, ids)| == |tbs|
    ensures |TapbackData(target, tbs, ids)| <= |tbs|
    ensures forall r :: r in TapbackData(target, tbs, ids) ==>
      exists t :: t in tbs && t.targetLine in ids && r == TapbackRowOf(target, t, ids[t.targetLine])
  {
    if tbs != [] {
      var init := tbs[..|tbs| - 1];
      TapbackDataKeepsMapped(target, init, ids);
      assert forall t :: t in init ==> t in tbs;
    }
  }

  /** The message count is the number of messages whose duplicate flag is clear. */
  lemma {:induction false} MessageCountIsUnflagged(ms: seq<Message>)
    ensures MessageCount(ms) == |set k | 0 <= k < |ms| && !ms[k].isDuplicate|
  {
    if ms != [] {
      var n := |ms| - 1;
      MessageCountIsUnflagged(ms[..n]);
      var prev := set k | 0 <= k < n && !ms[..n][k].isDuplicate;
      var all := set k | 0 <= k < |ms| && !ms[k].isDuplicate;
      assert prev == set k | 0 <= k < n && !ms[k].isDuplicate;
      if ms[n].isDuplicate {
        assert all == prev;
      } else {
        assert all == prev + {n};
      }
    }
  }

  // ---------------------------------------------------------------------
  // One whole import

  /**
   * The tables after `import_conversation` has written a parsed transcript with
   * at least one message (database.py:427-527): the conversation row replaced
   * with its dates and counts, the message rows appended and their reply ids
   * set, and the attachment and tapback rows whose lines have ids appended.
   */
  function Import(t: Tables, target: string, p: Parsed): Tables
    requires p.messages != []
  {
    var ms := p.messages;
    var ids := ImportIds(t.messages, target, ms);
    var atts := AttachmentData(target, p.attachments, ids);
    Tables(
      t.conversations[target := ConversationRow(None, MessageCount(ms), |atts|, Some(ms[0].date), Some(ms[|ms| - 1].date))],
      ImportedMessages(t.messages, target, ms),
      t.attachments + atts,
      t.tapbacks + TapbackData(target, p.tapbacks, ids))
  }

  /** `line_to_db_id` as read back right after the batch INSERT of `ms`. */
  function ImportIds(before: seq<MessageRow>, target: string, ms: seq<Message>): map<nat, nat>
  {
    LineIds(before + MessageRows(target, ms), target)
  }

  /** The `messages` table after the batch INSERT of `ms` and the reply UPDATEs. */
  function ImportedMessages(before: seq<MessageRow>, target: string, ms: seq<Message>): seq<MessageRow>
  {
    WithReplies(before + MessageRows(target, ms), ReplyUpdates(ms, ImportIds(before, target, ms)))
  }

  lemma ImportMessagesAre(t: Tables, target: string, p: Parsed)
    requires p.messages != []
    ensures Import(t, target, p).messages == ImportedMessages(t.messages, target, p.messages)
  {
  }

  lemma ImportedMessagesAre(before: seq<MessageRow>, target: string, ms: seq<Message>)
    ensures ImportedMessages(before, target, ms)
      == WithReplies(before + MessageRows(target, ms), ReplyUpdates(ms, ImportIds(before, target, ms)))
  {
  }

  /** What the parser guarantees about the lists it returns, as far as the import relies on it. */
  predicate WellParsed(p: Parsed)
  {
    && StrictlyIncreasing(LineNumbers(p.messages))
    && (forall a :: a in p.attachments ==> a.messageLine in LineNumbers(p.messages))
    && (forall x :: x in p.tapbacks ==> x.targetLine in LineNumbers(p.messages))
  }

  /** Every successful parse is well parsed. */
  lemma ParsedIsWellParsed(lines: seq<string>, cache: Cache)
    requires ParseConversation(lines, cache).Ok?
    ensures WellParsed(ParseConversation(lines, cache).value)
  {
    ParsedMessagesInFileOrder(Views(lines), cache);
  }

  /** The only update naming `child` is the one entry `k` may hold. */
  lemma {:induction false} LastUpdateOfPresent(es: seq<Option<(nat, nat)>>, child: nat, k: nat)
    requires k < |es|
    requires forall j :: 0 <= j < |es| && j != k && es[j].Some? ==> es[j].value.1 != child
    requires es[k].Some? ==> es[k].value.1 == child
    ensures LastUpdateFor(Present(es), child) == if es[k].Some? then Some(es[k].value.0) else None
  {
    var n := |es| - 1;
    var init := es[..n];
    PresentSnoc(es);
    if k < n {
      LastUpdateOfPresent(init, child, k);
    } else {
      NoUpdateFor(init, child);
    }
  }

  /** `Present` of a non-empty sequence, one entry at a time. */
  lemma PresentSnoc(es: seq<Option<(nat, nat)>>)
    requires es != []
    ensures var init := Present(es[..|es| - 1]); var last := es[|es| - 1];
      && (last.None? ==> Present(es) == init)
      && (last.Some? ==> Present(es) == init + [last.value] && (init + [last.value])[..|init|] == init)
  {
  }

  lemma {:induction false} NoUpdateFor(es: seq<Option<(nat, nat)>>, child: nat)
    requires forall j :: 0 <= j < |es| && es[j].Some? ==> es[j].value.1 != child
    ensures LastUpdateFor(Present(es), child) == None
  {
    if es != [] {
      NoUpdateFor(es[..|es| - 1], child);
      PresentSnoc(es);
    }
  }

  /** The ids read back after a first import of a target are positional. */
  lemma FirstImportIds(before: seq<MessageRow>, target: string, ms: seq<Message>)
    requires forall r :: r in before ==> r.target != target
    requires StrictlyIncreasing(LineNumbers(ms))
    ensures Positional(ImportIds(before, target, ms), ms, |before|)
  {
    var ls := LineNumbers(ms);
    assert forall i, j :: 0 <= i < j < |ms| ==> ms[i].lineNumber != ms[j].lineNumber by {
      forall i, j | 0 <= i < j < |ms| ensures ms[i].lineNumber != ms[j].lineNumber {
        assert ls[i] < ls[j];
      }
    }
    PositionalIds(before, target, ms);
  }

  /**
   * Row `i` of the `messages` table after a first import of a target: an
   * earlier row is untouched, and a new row is its message's row apart from
   * the parent id.
   */
  lemma ImportedRowAt(before: seq<MessageRow>, target: string, ms: seq<Message>, i: nat)
    requires forall r :: r in before ==> r.target != target
    requires StrictlyIncreasing(LineNumbers(ms))
    requires i < |before| + |ms|
    ensures var rows := ImportedMessages(before, target, ms);
      && |rows| == |before| + |ms|
      && (i < |before| ==> rows[i] == before[i])
      && (|before| <= i ==> rows[i] == RowOf(target, ms[i - |before|]).(replyToId := rows[i].replyToId))
  {
    var inserted := before + MessageRows(target, ms);
    var ids := ImportIds(before, target, ms);
    FirstImportIds(before, target, ms);
    WithRepliesAt(inserted, ReplyUpdates(ms, ids), i);
    if i < |before| {
      NoUpdateBefore(ms, ids, |before|, i + 1);
    } else {
      assert inserted[i] == RowOf(target, ms[i - |before|]);
    }
  }

  /** A first import of a target leaves the rows already in the table alone ... */
  lemma ImportKeepsEarlierRows(t: Tables, target: string, p: Parsed)
    requires p.messages != []
    requires forall r :: r in t.messages ==> r.target != target
    requires StrictlyIncreasing(LineNumbers(p.messages))
    ensures var rows := Import(t, target, p).messages;
      && |rows| == |t.messages| + |p.messages|
      && forall i :: 0 <= i < |t.messages| ==> rows[i] == t.messages[i]
  {
    var rows := ImportedMessages(t.messages, target, p.messages);
    ImportMessagesAre(t, target, p);
    ImportedRowAt(t.messages, target, p.messages, 0);
    forall i | 0 <= i < |t.messages| ensures rows[i] == t.messages[i] {
      ImportedRowAt(t.messages, target, p.messages, i);
    }
  }

  /**
   * ... and appends one row per parsed message, in order, carrying that
   * message's columns; only the parent id is filled in afterwards.
   */
  lemma ImportedRows(t: Tables, target: string, p: Parsed)
    requires p.messages != []
    requires forall r :: r in t.messages ==> r.target != target
    requires StrictlyIncreasing(LineNumbers(p.messages))
    ensures var rows := Import(t, target, p).messages;
      && |rows| == |t.messages| + |p.messages|
      && forall k :: 0 <= k < |p.messages| ==>
           rows[|t.messages| + k] == RowOf(target, p.messages[k]).(replyToId := rows[|t.messages| + k].replyToId)
  {
    var ms := p.messages;
    var base := |t.messages|;
    var rows := ImportedMessages(t.messages, target, ms);
    ImportMessagesAre(t, target, p);
    ImportedRowAt(t.messages, target, ms, base);
    forall k | 0 <= k < |ms| ensures rows[base + k] == RowOf(target, ms[k]).(replyToId := rows[base + k].replyToId) {
      ImportedRowAt(t.messages, target, ms, base + k);
    }
  }

  /**
   * After a first import of a target, the conversation row holds the first
   * and last dates, the number of messages not flagged as duplicates and the
   * number of attachment rows, which is every descriptor the parser returned;
   * every tapback gets a row too.
   */
  lemma ImportedCounts(t: Tables, target: string, p: Parsed)
    requires p.messages != []
    requires forall r :: r in t.messages ==> r.target != target
    requires WellParsed(p)
    ensures var t' := Import(t, target, p); var ms := p.messages;
      && |t'.attachments| == |t.attachments| + |p.attachments|
      && |t'.tapbacks| == |t.tapbacks| + |p.tapbacks|
      && t'.conversations == t.conversations[target :=
           ConversationRow(None, MessageCount(ms), |p.attachments|, Some(ms[0].date), Some(ms[|ms| - 1].date))]
  {
    FirstImportIds(t.messages, target, p.messages);
    AttachmentsOfFirstImport(p, ImportIds(t.messages, target, p.messages), |t.messages|, target);
  }

  /** With positional ids, every descriptor and every tapback of a well-parsed transcript gets a row. */
  lemma AttachmentsOfFirstImport(p: Parsed, ids: map<nat, nat>, base: nat, target: string)
    requires WellParsed(p)
    requires Positional(ids, p.messages, base)
    ensures |AttachmentData(target, p.attachments, ids)| == |p.attachments|
    ensures |TapbackData(target, p.tapbacks, ids)| == |p.tapbacks|
  {
    var ls := LineNumbers(p.messages);
    forall line | line in ls ensures line in ids {
      var k :| 0 <= k < |ls| && ls[k] == line;
      assert p.messages[k].lineNumber == line;
    }
    AttachmentDataKeepsMapped(target, p.attachments, ids);
    TapbackDataKeepsMapped(target, p.tapbacks, ids);
  }

  /** With positional ids, the reply UPDATEs give row `base + k` the parent id of message `k`'s edge. */
  lemma ReplyIdIsEdge(inserted: seq<MessageRow>, ms: seq<Message>, ids: map<nat, nat>, base: nat, k: nat)
    requires Positional(ids, ms, base)
    requires k < |ms| && base + k < |inserted| && inserted[base + k].replyToId == None
    ensures var edge := ReplyEdge(ms, ms[k], ids);
      WithReplies(inserted, ReplyUpdates(ms, ids))[base + k].replyToId == if edge.Some? then Some(edge.value.0) else None
  {
    var edge := ReplyEdge(ms, ms[k], ids);
    UpdateForMessage(ms, ids, base, k);
    ReplyIdFromUpdates(inserted, ReplyUpdates(ms, ids), base + k, if edge.Some? then Some(edge.value.0) else None);
  }

  /**
   * A batch inserted at positions `base` onwards with no parent ids yet, whose
   * lines increase and whose ids are positional.
   */
  ghost predicate FirstBatch(inserted: seq<MessageRow>, ms: seq<Message>, ids: map<nat, nat>, base: nat)
  {
    && |inserted| == base + |ms|
    && (forall j :: 0 <= j < |ms| ==> inserted[base + j].lineNumber == ms[j].lineNumber && inserted[base + j].replyToId == None)
    && (forall i, j :: 0 <= i < j < |ms| ==> ms[i].lineNumber < ms[j].lineNumber)
    && Positional(ids, ms, base)
  }

  /** The first import of a target inserts such a batch. */
  lemma FirstImportBatch(before: seq<MessageRow>, target: string, ms: seq<Message>)
    requires forall r :: r in before ==> r.target != target
    requires StrictlyIncreasing(LineNumbers(ms))
    ensures FirstBatch(before + MessageRows(target, ms), ms, ImportIds(before, target, ms), |before|)
  {
    BatchRows(before, target, ms);
    IncreasingLines(ms);
    FirstImportIds(before, target, ms);
  }

  /**
   * The reply UPDATEs over a batch whose rows sit at positions `base` onwards and
   * carry positional ids: a row gets a parent id exactly when the gate passes.
   */
  lemma ReplyIdGate(inserted: seq<MessageRow>, ms: seq<Message>, ids: map<nat, nat>, base: nat, k: nat, rows: seq<MessageRow>)
    requires rows == WithReplies(inserted, ReplyUpdates(ms, ids))
    requires FirstBatch(inserted, ms, ids, base) && k < |ms|
    ensures |rows| == |inserted|
    ensures var parent := FindParentLine(ms, ms[k]);
      rows[base + k].replyToId.Some? <==> ms[k].replyTo.Some? && parent.Some? && parent.value != 0
  {
    EdgeOfMessage(ms, ids, base, k);
    ReplyIdIsEdge(inserted, ms, ids, base, k);
  }

  /**
   * Row `i` either has no parent id, or its parent id names an earlier row
   * after position `lo`, and that row holds line `parentLine`.
   */
  predicate ReplyPointsTo(rows: seq<MessageRow>, i: nat, lo: nat, parentLine: nat)
    requires i < |rows|
  {
    rows[i].replyToId.Some? ==>
      var id := rows[i].replyToId.value;
      lo < id <= i && rows[id - 1].lineNumber == parentLine
  }

  /** ... and that parent id is the id of an earlier row of the batch, the one holding the parent line. */
  lemma ReplyIdPointsBack(inserted: seq<MessageRow>, ms: seq<Message>, ids: map<nat, nat>, base: nat, k: nat, rows: seq<MessageRow>)
    requires rows == WithReplies(inserted, ReplyUpdates(ms, ids))
    requires FirstBatch(inserted, ms, ids, base) && k < |ms|
    ensures |rows| == |inserted|
    ensures var parent := FindParentLine(ms, ms[k]);
      parent.Some? ==> ReplyPointsTo(rows, base + k, base, parent.value)
  {
    var updates := ReplyUpdates(ms, ids);
    var edge := ReplyEdge(ms, ms[k], ids);
    var parent := FindParentLine(ms, ms[k]);
    var j := EdgeParentIndex(ms, ids, base, k);
    ReplyIdIsEdge(inserted, ms, ids, base, k);
    WithRepliesKeepsLines(inserted, updates);
    PointsBackFrom(rows, inserted, ms, base, k, edge, parent, j);
  }

  /** The points-back conclusion from the id written for row `base + k` and the batch index `j` of its parent. */
  lemma PointsBackFrom(rows: seq<MessageRow>, inserted: seq<MessageRow>, ms: seq<Message>, base: nat, k: nat,
                       edge: Option<(nat, nat)>, parent: Option<nat>, j: nat)
    requires |rows| == |inserted| == base + |ms| && k < |ms|
    requires forall i :: 0 <= i < |ms| ==> inserted[base + i].lineNumber == ms[i].lineNumber
    requires forall i :: 0 <= i < |inserted| ==> rows[i].lineNumber == inserted[i].lineNumber
    requires rows[base + k].replyToId == if edge.Some? then Some(edge.value.0) else None
    requires edge.Some? ==> parent.Some? && j < k && ms[j].lineNumber == parent.value && edge.value.0 == base + j + 1
    ensures parent.Some? ==> ReplyPointsTo(rows, base + k, base, parent.value)
  {
    if edge.Some? {
      assert rows[base + j].lineNumber == inserted[base + j].lineNumber;
    }
  }

  /** The rows of a batch INSERT sit after the earlier rows, carry their lines and have no parent id yet. */
  lemma BatchRows(before: seq<MessageRow>, target: string, ms: seq<Message>)
    ensures var inserted := before + MessageRows(target, ms);
      && |inserted| == |before| + |ms|
      && (forall j :: 0 <= j < |ms| ==>
            inserted[|before| + j].lineNumber == ms[j].lineNumber && inserted[|before| + j].replyToId == None)
  {
    var inserted := before + MessageRows(target, ms);
    forall j | 0 <= j < |ms| ensures inserted[|before| + j] == RowOf(target, ms[j]) {
    }
  }

  /** Strictly increasing line numbers, pair by pair. */
  lemma IncreasingLines(ms: seq<Message>)
    requires StrictlyIncreasing(LineNumbers(ms))
    ensures forall i, j :: 0 <= i < j < |ms| ==> ms[i].lineNumber < ms[j].lineNumber
  {
    var ls := LineNumbers(ms);
    forall i, j | 0 <= i < j < |ms| ensures ms[i].lineNumber < ms[j].lineNumber {
      assert ls[i] < ls[j];
    }
  }

  /**
   * After a first import of a target, message `k`'s row has a parent id exactly
   * when its provisional parent is set and the backward scan finds a parent line
   * other than 0.
   */
  lemma ImportedReplyGate(before: seq<MessageRow>, target: string, ms: seq<Message>, k: nat)
    requires forall r :: r in before ==> r.target != target
    requires StrictlyIncreasing(LineNumbers(ms))
    requires k < |ms|
    ensures var rows := ImportedMessages(before, target, ms); var parent := FindParentLine(ms, ms[k]);
      && |rows| == |before| + |ms|
      && (rows[|before| + k].replyToId.Some? <==> ms[k].replyTo.Some? && parent.Some? && parent.value != 0)
  {
    FirstImportBatch(before, target, ms);
    ImportedMessagesAre(before, target, ms);
    ReplyIdGate(before + MessageRows(target, ms), ms, ImportIds(before, target, ms), |before|, k, ImportedMessages(before, target, ms));
  }

  /**
   * ... and that parent id is the id of an earlier row of the same import, the
   * one that holds the parent line.
   */
  lemma ImportedReplyTarget(before: seq<MessageRow>, target: string, ms: seq<Message>, k: nat)
    requires forall r :: r in before ==> r.target != target
    requires StrictlyIncreasing(LineNumbers(ms))
    requires k < |ms|
    ensures var rows := ImportedMessages(before, target, ms); var parent := FindParentLine(ms, ms[k]);
      && |rows| == |before| + |ms|
      && (parent.Some? ==> ReplyPointsTo(rows, |before| + k, |before|, parent.value))
  {
    FirstImportBatch(before, target, ms);
    ImportedMessagesAre(before, target, ms);
    ReplyIdPointsBack(before + MessageRows(target, ms), ms, ImportIds(before, target, ms), |before|, k, ImportedMessages(before, target, ms));
  }

  /** An import leaves every row of other targets where it was, so only its own target is added to the table. */
  lemma ImportAddsOnlyItsTarget(t: Tables, target: string, p: Parsed)
    requires p.messages != []
    ensures Targets(Import(t, target, p).messages) <= Targets(t.messages) + {target}
  {
    var ms := p.messages;
    var inserted := t.messages + MessageRows(target, ms);
    var rows := ImportedMessages(t.messages, target, ms);
    ImportMessagesAre(t, target, p);
    forall r | r in rows ensures r.target in Targets(t.messages) + {target} {
      var i :| 0 <= i < |rows| && rows[i] == r;
      WithRepliesOnlySetsReplies(inserted, ReplyUpdates(ms, ImportIds(t.messages, target, ms)), i);
      if i < |t.messages| {
        assert inserted[i] == t.messages[i];
      } else {
        assert inserted[i] == RowOf(target, ms[i - |t.messages|]);
      }
    }
  }
}
