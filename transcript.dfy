/**
 * The transcript parser of `parse_conversation_file` (database.py:169-373) as a
 * specification: `Classify` is the priority order of the per-line checks,
 * `Step` the effect of one line on the parser state, `RunPrefix` the state after
 * the first `n` lines, and `ParseConversation` the three lists the parser
 * returns after its post-passes. The imperative parser in module Builder is
 * proved to compute exactly `ParseConversation`.
 *
 * Records are values: once the open message is appended to `messages` the parser
 * never touches it through another reference, so nothing is lost by copying.
 */
module Transcript {
  import opened Basics
  import opened Text
  import opened Recognisers
  import opened AttachmentIndex

  const UnsentText: string := "[Message unsent]"
  const DuplicateMarker: string := "This message responded to an earlier message"
  const TapbacksHeader: string := "Tapbacks:"
  const Self: string := "Me"

  /** `message_type`: `'text'` or `'unsent'`; only text messages have `text_parts`. */
  datatype Kind = TextMessage | UnsentMessage

  /** One attachment reference line of a message (database.py:322-327). */
  datatype AttachmentRef = AttachmentRef(filename: string, directoryNumber: string, isSticker: bool, lineContent: string)

  /**
   * A message record. `lineNumber` is the 0-based index of the line that opened
   * it; `replyTo` is the provisional parent taken from the reply stack;
   * `textParts` collects body lines until the post-pass joins them into `text`.
   */
  datatype Message = Message(
    lineNumber: nat,
    indent: nat,
    date: string,
    sender: Option<string>,
    isFromMe: bool,
    replyTo: Option<nat>,
    kind: Kind,
    textParts: seq<string>,
    text: string,
    isDuplicate: bool,
    attachments: seq<AttachmentRef>,
    readReceipt: Option<ReadReceipt>,
    edit: Option<Edit>,
    expressive: Option<string>)

  /** A tapback and the line number of the message it was attached to. */
  datatype Tapback = Tapback(reaction: Reaction, targetLine: nat)

  /** The loop variables of the parser. */
  datatype ParseState = ParseState(
    current: Option<Message>,
    inTapbacks: bool,
    replyStack: seq<Option<nat>>,
    messages: seq<Message>,
    tapbacks: seq<Tapback>)

  const Initial: ParseState := ParseState(None, false, [], [], [])

  /**
   * The one exception the parser can raise: a body line while an unsent record
   * is open looks up the `text_parts` key that record does not have.
   */
  datatype ParseError = MissingTextParts(lineNumber: nat)

  /**
   * What the loop body can learn from one line (its terminator removed) without
   * looking at the parser state: every test and capture of database.py:188-333.
   * The tests are pure, so computing all of them up front, rather than lazily in
   * the order the loop reaches them, changes nothing.
   */
  datatype LineView = LineView(
    stripped: string,                  // `line.lstrip(' ')`
    indent: nat,                       // `indent_level`
    blank: bool,                       // `not line.strip()`
    trimmed: string,                   // `stripped_line.strip()`
    tapback: Option<Reaction>,         // `_parse_tapback_line(stripped_line)`
    marker: bool,                      // the duplicate marker occurs in `stripped_line`
    unsent: Option<string>,
    timestamp: Option<string>,
    readReceipt: Option<ReadReceipt>,
    expressive: Option<string>,
    edited: Option<Edit>,
    attachment: Option<AttachmentMatch>,
    sticker: bool)                     // `'Sticker' in line`

  function View(line: string): LineView
  {
    var stripped := LStripSpaces(line);
    LineView(
      stripped, IndentLevel(line), Strip(line) == [], Strip(stripped),
      ParseTapbackLine(stripped), Contains(stripped, DuplicateMarker),
      FindUnsent(stripped), FindTimestamp(stripped), FindReadReceipt(stripped),
      FindExpressive(stripped), FindEdited(stripped), FindAttachment(stripped),
      Contains(line, "Sticker"))
  }

  /** The views of the lines `readlines()` returns, each with its terminator removed. */
  function Views(lines: seq<string>): (vs: seq<LineView>)
    ensures |vs| == |lines|
  {
    if lines == [] then []
    else Views(lines[..|lines| - 1]) + [View(RStripBreaks(lines[|lines| - 1]))]
  }

  /** The views of a prefix one line longer. */
  lemma ViewsOfLongerPrefix(lines: seq<string>, n: nat)
    requires n < |lines|
    ensures Views(lines[..n + 1]) == Views(lines[..n]) + [View(RStripBreaks(lines[n]))]
  {
    var longer := lines[..n + 1];
    assert longer[..n] == lines[..n] && longer[n] == lines[n];
  }

  /** Which check of the loop body claims a line. */
  datatype LineClass =
    | Blank
    | TapbacksHeaderLine
    | TapbackEntry
    | DuplicateMarkerLine
    | UnsentLine(unsentSender: string)
    | TimestampLine(date: string)
    | SenderLine
    | EditedLine(edit: Edit)
    | AttachmentLine(found: AttachmentMatch)
    | BodyLine

  /** What `Classify` guarantees about the state for the classes that touch the open message. */
  predicate ClassFits(st: ParseState, c: LineClass)
  {
    && (c.SenderLine? ==> st.current.Some? && st.current.value.sender.None?)
    && (c.EditedLine? || c.AttachmentLine? ==> st.current.Some?)
  }

  /**
   * The checks of database.py:188-333, in the order the loop tries them.
   * `ClassFits` only says the class is one the state allows; the priority
   * order itself is stated line class by line class by the lemmas of
   * `TranscriptProperties`, from `BlankLineOnlyEndsTapbacks` to
   * `BodyLineNeedsSender`, one per branch of this cascade.
   */
  function Classify(st: ParseState, v: LineView): (c: LineClass)
    ensures ClassFits(st, c)
  {
    if v.blank then Blank
    else if v.trimmed == TapbacksHeader then TapbacksHeaderLine
    else if st.inTapbacks then TapbackEntry
    else if v.marker then DuplicateMarkerLine
    else if v.unsent.Some? then UnsentLine(v.unsent.value)
    else if v.timestamp.Some? then TimestampLine(v.timestamp.value)
    else if st.current.Some? && st.current.value.sender.None? then SenderLine
    else if v.edited.Some? && st.current.Some? then EditedLine(v.edited.value)
    else if v.attachment.Some? && st.current.Some? then AttachmentLine(v.attachment.value)
    else BodyLine
  }

  /** Lines that open a message. */
  predicate Opens(c: LineClass)
  {
    c.UnsentLine? || c.TimestampLine?
  }

  /** `messages` after the open message, if any, is appended. */
  function Closed(st: ParseState): seq<Message>
  {
    st.messages + (if st.current.Some? then [st.current.value] else [])
  }

  /** The record an unsent line opens (database.py:225-242). */
  function UnsentRecord(n: nat, indent: nat, sender: string): Message
  {
    Message(n, indent, "", Some(sender), sender == Self, None, UnsentMessage, [], UnsentText,
            false, [], None, None, None)
  }

  /** The record a timestamp line opens (database.py:276-294). */
  function TimestampRecord(n: nat, indent: nat, date: string, parent: Option<nat>, v: LineView): Message
  {
    Message(n, indent, date, None, false, parent, TextMessage, [], "", false, [], v.readReceipt, None, v.expressive)
  }

  /** `while len(reply_stack) > k: reply_stack.pop()`. */
  function Truncate(stack: seq<Option<nat>>, k: nat): (r: seq<Option<nat>>)
    ensures |r| <= |stack| && r == stack[..|r|]
    ensures |r| == if |stack| > k then k else |stack|
  {
    if |stack| > k then stack[..k] else stack
  }

  /** `reply_stack.extend([None] * ...)` followed by `reply_stack[indent] = n` (database.py:304-306). */
  function Register(stack: seq<Option<nat>>, indent: nat, n: nat): (r: seq<Option<nat>>)
    ensures |r| == if |stack| <= indent then indent + 1 else |stack|
    ensures r[indent] == Some(n)
    ensures forall k :: 0 <= k < |r| && k != indent ==> r[k] == if k < |stack| then stack[k] else None
  {
    var padded := if |stack| <= indent then stack + seq(indent + 1 - |stack|, _ => None) else stack;
    padded[indent := Some(n)]
  }

  /** Python truthiness of the `sender` field. */
  predicate HasSender(m: Message)
  {
    m.sender.Some? && m.sender.value != []
  }

  /** The effect of line `n`, seen as `v` and classified as `c`. */
  function Apply(st: ParseState, n: nat, v: LineView, c: LineClass): Result<ParseState, ParseError>
    requires ClassFits(st, c)
  {
    match c
    case Blank => Ok(st.(inTapbacks := false))
    case TapbacksHeaderLine => Ok(st.(inTapbacks := true))
    case TapbackEntry =>
      if st.current.Some? && v.tapback.Some? then
        Ok(st.(tapbacks := st.tapbacks + [Tapback(v.tapback.value, st.current.value.lineNumber)]))
      else Ok(st)
    case DuplicateMarkerLine =>
      if st.current.Some? then Ok(st.(current := Some(st.current.value.(isDuplicate := true)))) else Ok(st)
    case UnsentLine(sender) =>
      Ok(st.(messages := Closed(st), current := Some(UnsentRecord(n, v.indent, sender))))
    case TimestampLine(date) =>
      var stack := if v.indent > 0 then Truncate(st.replyStack, v.indent) else st.replyStack;
      var parent := if v.indent > 0 && |stack| > 0 then stack[|stack| - 1] else None;
      Ok(st.(messages := Closed(st), replyStack := stack,
             current := Some(TimestampRecord(n, v.indent, date, parent, v))))
    case SenderLine =>
      Ok(st.(current := Some(st.current.value.(sender := Some(v.trimmed), isFromMe := v.trimmed == Self)),
             replyStack := Register(st.replyStack, v.indent, n)))
    case EditedLine(edit) =>
      Ok(st.(current := Some(st.current.value.(edit := Some(edit)))))
    case AttachmentLine(found) =>
      var ref := AttachmentRef(found.filename, found.directory, v.sticker, v.stripped);
      Ok(st.(current := Some(st.current.value.(attachments := st.current.value.attachments + [ref]))))
    case BodyLine =>
      if st.current.Some? && HasSender(st.current.value) then
        if st.current.value.kind == UnsentMessage then Err(MissingTextParts(n))
        else Ok(st.(current := Some(st.current.value.(textParts := st.current.value.textParts + [v.stripped]))))
      else Ok(st)
  }

  /** The effect of line `n`, seen as `v`, on the parser state. */
  function Step(st: ParseState, n: nat, v: LineView): Result<ParseState, ParseError>
  {
    Apply(st, n, v, Classify(st, v))
  }

  /** The parser state after the lines seen as `vs[..n]`, or the error one of them raised. */
  function RunPrefix(vs: seq<LineView>, n: nat): Result<ParseState, ParseError>
    requires n <= |vs|
  {
    if n == 0 then Ok(Initial)
    else match RunPrefix(vs, n - 1)
      case Err(e) => Err(e)
      case Ok(st) => Step(st, n - 1, vs[n - 1])
  }

  // ---------------------------------------------------------------------
  // Post-passes (database.py:339-371)

  /** A text message's body lines joined with newlines and stripped; `text_parts` is dropped. */
  function Finalize(m: Message): Message
  {
    if m.kind == TextMessage then m.(text := Strip(JoinLines(m.textParts)), textParts := []) else m
  }

  /** `str(sender)` inside the f-string: a missing sender prints as `None`. */
  function SenderText(sender: Option<string>): string
  {
    match sender
    case None => "None"
    case Some(s) => s
  }

  /** `f"{message_date}|{sender}|{message_text[:100]}"`. */
  function Signature(m: Message): string
  {
    m.date + "|" + SenderText(m.sender) + "|" + Prefix(m.text, 100)
  }

  /** Some earlier message has the same signature as message `k`. */
  predicate SeenEarlier(ms: seq<Message>, k: nat)
    requires k < |ms|
  {
    exists j :: 0 <= j < k && Signature(ms[j]) == Signature(ms[k])
  }

  /** Duplicate flags after the signature pass: a marker flag stays, a repeated signature adds one. */
  function MarkDuplicates(ms: seq<Message>): seq<Message>
  {
    seq(|ms|, k requires 0 <= k < |ms| => ms[k].(isDuplicate := ms[k].isDuplicate || SeenEarlier(ms, k)))
  }

  function FinalizeAll(drafts: seq<Message>): seq<Message>
  {
    seq(|drafts|, k requires 0 <= k < |drafts| => Finalize(drafts[k]))
  }

  /** The messages the parser returns, given the records it appended. */
  function PostProcess(drafts: seq<Message>): seq<Message>
  {
    MarkDuplicates(FinalizeAll(drafts))
  }

  /** An attachment descriptor: `relPath` and `size` are absent when the name is not cached. */
  datatype AttachmentRecord = AttachmentRecord(
    messageLine: nat,
    filename: string,
    directoryNumber: string,
    isSticker: bool,
    relPath: Option<string>,
    size: Option<nat>)

  /** The descriptor of one reference, looked up by bare file name (database.py:355-369). */
  function Resolve(line: nat, a: AttachmentRef, cache: Cache): AttachmentRecord
  {
    if a.filename in cache then
      AttachmentRecord(line, a.filename, a.directoryNumber, a.isSticker,
                       Some(cache[a.filename].relPath), Some(cache[a.filename].size))
    else AttachmentRecord(line, a.filename, a.directoryNumber, a.isSticker, None, None)
  }

  function ResolveAll(line: nat, refs: seq<AttachmentRef>, cache: Cache): seq<AttachmentRecord>
  {
    seq(|refs|, k requires 0 <= k < |refs| => Resolve(line, refs[k], cache))
  }

  /** The descriptors of every message's references, message by message. */
  function ResolveAttachments(ms: seq<Message>, cache: Cache): seq<AttachmentRecord>
  {
    if ms == [] then []
    else
      var last := ms[|ms| - 1];
      ResolveAttachments(ms[..|ms| - 1], cache) + ResolveAll(last.lineNumber, last.attachments, cache)
  }

  datatype Parsed = Parsed(messages: seq<Message>, attachments: seq<AttachmentRecord>, tapbacks: seq<Tapback>)

  /** The three lists the parser returns for lines seen as `vs`, or the error it raises. */
  function ParseViews(vs: seq<LineView>, cache: Cache): Result<Parsed, ParseError>
  {
    match RunPrefix(vs, |vs|)
    case Err(e) => Err(e)
    case Ok(st) =>
      var ms := PostProcess(Closed(st));
      Ok(Parsed(ms, ResolveAttachments(ms, cache), st.tapbacks))
  }

  /** What `parse_conversation_file` returns for the lines of a transcript, or the error it raises. */
  function ParseConversation(lines: seq<string>, cache: Cache): Result<Parsed, ParseError>
  {
    ParseViews(Views(lines), cache)
  }
}
