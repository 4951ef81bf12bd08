/**
 * What the transcript parser guarantees, proved about the specification in
 * module Transcript: the per-line rules of the state machine, the invariant the
 * loop keeps, and the shape of the three lists it returns.
 */
module TranscriptProperties {
  import opened Basics
  import opened Text
  import opened Recognisers
  import opened AttachmentIndex
  import opened Transcript

  // ---------------------------------------------------------------------
  // Per-line rules: which check claims a line, and what it does

  /** A blank line only leaves tapback mode; in particular it never closes the open message. */
  lemma BlankLineOnlyEndsTapbacks(st: ParseState, n: nat, v: LineView)
    requires v.blank
    ensures Step(st, n, v) == Ok(st.(inTapbacks := false))
  {
  }

  /** The tapbacks a line adds in tapback mode: one for a well-formed line while a message is open. */
  function TapbackOf(st: ParseState, v: LineView): seq<Tapback>
  {
    if st.current.Some? && v.tapback.Some?
    then [Tapback(v.tapback.value, st.current.value.lineNumber)]
    else []
  }

  /**
   * In tapback mode every non-blank line other than the header is consumed,
   * even one that carries a timestamp or an unsent marker: at most a tapback
   * for the open message is recorded and nothing else changes.
   */
  lemma TapbackModeConsumesLine(st: ParseState, n: nat, v: LineView)
    requires st.inTapbacks && !v.blank && v.trimmed != TapbacksHeader
    ensures Step(st, n, v) == Ok(st.(tapbacks := st.tapbacks + TapbackOf(st, v)))
  {
    assert st.tapbacks + [] == st.tapbacks;
  }

  /** Outside tapback mode, the duplicate marker flags the open message and closes nothing. */
  lemma DuplicateMarkerFlagsOpenMessage(st: ParseState, n: nat, v: LineView)
    requires !st.inTapbacks && !v.blank && v.trimmed != TapbacksHeader && v.marker
    requires st.current.Some?
    ensures Step(st, n, v) == Ok(st.(current := Some(st.current.value.(isDuplicate := true))))
  {
  }

  /**
   * An unsent line (checked before the timestamp) closes the open message and
   * opens a fixed record: kind unsent, the sentinel text, an empty date, no
   * provisional parent, and `isFromMe` exactly when the captured sender is "Me".
   */
  lemma UnsentLineOpensRecord(st: ParseState, n: nat, v: LineView)
    requires !st.inTapbacks && !v.blank && v.trimmed != TapbacksHeader && !v.marker
    requires v.unsent.Some?
    ensures Step(st, n, v).Ok?
    ensures var st' := Step(st, n, v).value;
      var sender := v.unsent.value;
      && st'.messages == Closed(st)
      && st'.current.Some?
      && var m := st'.current.value;
      && m.kind == UnsentMessage && m.text == UnsentText && m.date == []
      && m.sender == Some(sender) && (m.isFromMe <==> sender == "Me")
      && m.replyTo.None? && !m.isDuplicate && m.lineNumber == n && m.indent == v.indent
      && st'.replyStack == st.replyStack && st'.tapbacks == st.tapbacks
  {
  }

  /**
   * A timestamp line closes the open message and opens one without a sender.
   * At indentation 0 the reply stack is untouched and there is no parent;
   * deeper, the stack is cut to the indentation and its top (possibly an empty
   * slot) becomes the provisional parent.
   */
  lemma TimestampLineOpensRecord(st: ParseState, n: nat, v: LineView)
    requires !st.inTapbacks && !v.blank && v.trimmed != TapbacksHeader && !v.marker
    requires v.unsent.None? && v.timestamp.Some?
    ensures Step(st, n, v).Ok?
    ensures var st' := Step(st, n, v).value;
      && st'.messages == Closed(st)
      && st'.current.Some?
      && var m := st'.current.value;
      && m.kind == TextMessage && m.sender.None? && m.textParts == [] && m.lineNumber == n
      && m.date == v.timestamp.value && m.readReceipt == v.readReceipt && m.expressive == v.expressive
      && (v.indent == 0 ==> m.replyTo.None? && st'.replyStack == st.replyStack)
      && (v.indent > 0 ==> |st'.replyStack| <= v.indent && st'.replyStack == st.replyStack[..|st'.replyStack|] &&
                           m.replyTo == if st'.replyStack == [] then None else st'.replyStack[|st'.replyStack| - 1])
  {
  }

  /**
   * The first otherwise unclaimed line after a timestamp names the sender,
   * records the sender line's own index at its depth of the reply stack, and
   * changes nothing else; an edit or attachment pattern on that line is ignored.
   */
  lemma SenderLineNamesSender(st: ParseState, n: nat, v: LineView)
    requires !st.inTapbacks && !v.blank && v.trimmed != TapbacksHeader && !v.marker
    requires v.unsent.None? && v.timestamp.None?
    requires st.current.Some? && st.current.value.sender.None?
    ensures Step(st, n, v).Ok?
    ensures var st' := Step(st, n, v).value;
      && st'.messages == st.messages && st'.tapbacks == st.tapbacks && st'.current.Some?
      && st'.current.value == st.current.value.(sender := Some(v.trimmed), isFromMe := v.trimmed == "Me")
      && |st'.replyStack| > v.indent && st'.replyStack[v.indent] == Some(n)
      && forall k :: 0 <= k < |st'.replyStack| && k != v.indent ==>
           st'.replyStack[k] == if k < |st.replyStack| then st.replyStack[k] else None
  {
  }

  /**
   * A body line is kept only once a sender is set; before that it is dropped.
   * While an unsent record is open it raises, as the record has no body parts.
   */
  lemma BodyLineNeedsSender(st: ParseState, n: nat, v: LineView)
    requires Classify(st, v) == BodyLine
    ensures st.current.None? || !HasSender(st.current.value) ==> Step(st, n, v) == Ok(st)
    ensures st.current.Some? && HasSender(st.current.value) && st.current.value.kind == UnsentMessage ==>
      Step(st, n, v) == Err(MissingTextParts(n))
    ensures st.current.Some? && HasSender(st.current.value) && st.current.value.kind == TextMessage ==>
      Step(st, n, v) == Ok(st.(current := Some(st.current.value.(textParts := st.current.value.textParts + [v.stripped]))))
  {
  }

  /** A failure is final: no later line can undo it. */
  lemma {:induction false} ErrorPersists(vs: seq<LineView>, n: nat, m: nat)
    requires n <= m <= |vs|
    requires RunPrefix(vs, n).Err?
    ensures RunPrefix(vs, m) == RunPrefix(vs, n)
    decreases m - n
  {
    if n < m {
      ErrorPersists(vs, n, m - 1);
    }
  }

  /**
   * The only failure: line `k` is a body line while the open record is an
   * unsent one, whose sender is always set.
   */
  lemma {:induction false} ErrorIsBodyAfterUnsent(vs: seq<LineView>, n: nat)
    requires n <= |vs|
    requires RunPrefix(vs, n).Err?
    ensures var k := RunPrefix(vs, n).error.lineNumber;
      && k < n && RunPrefix(vs, k).Ok?
      && var st := RunPrefix(vs, k).value;
      && Classify(st, vs[k]) == BodyLine
      && st.current.Some? && st.current.value.kind == UnsentMessage
  {
    if RunPrefix(vs, n - 1).Err? {
      ErrorIsBodyAfterUnsent(vs, n - 1);
    }
  }

  // ---------------------------------------------------------------------
  // The loop invariant

  function LineNumbers(ms: seq<Message>): (ls: seq<nat>)
    ensures |ls| == |ms| && forall k :: 0 <= k < |ms| ==> ls[k] == ms[k].lineNumber
  {
    seq(|ms|, k requires 0 <= k < |ms| => ms[k].lineNumber)
  }

  predicate StrictlyIncreasing(xs: seq<nat>)
  {
    forall i, j :: 0 <= i < j < |xs| ==> xs[i] < xs[j]
  }

  /**
   * After `n` lines: the records are in strictly increasing line order and
   * below `n`; every tapback targets one of them; every reply-stack entry is a
   * line below `n` that opened no message; and every provisional parent is
   * such a line, earlier than its message, on a message indented at least once.
   */
  predicate Wf(st: ParseState, n: nat)
  {
    var ms := Closed(st);
    var ls := LineNumbers(ms);
    && StrictlyIncreasing(ls)
    && (forall k :: 0 <= k < |ls| ==> ls[k] < n)
    && (forall t :: t in st.tapbacks ==> t.targetLine in ls)
    && (forall e :: e in st.replyStack && e.Some? ==> e.value < n && e.value !in ls)
    && (forall k :: 0 <= k < |ms| && ms[k].replyTo.Some? ==>
          0 < ms[k].indent && ms[k].replyTo.value < ms[k].lineNumber && ms[k].replyTo.value !in ls)
    && (forall k :: 0 <= k < |ms| && ms[k].kind == UnsentMessage ==> ms[k].textParts == [])
  }

  /** Line `k` opens a message. */
  predicate OpensAt(vs: seq<LineView>, k: nat)
    requires k < |vs|
  {
    RunPrefix(vs, k).Ok? && Opens(Classify(RunPrefix(vs, k).value, vs[k]))
  }

  /** The indices of the lines among the first `n` that open a message, in order. */
  function OpenedLines(vs: seq<LineView>, n: nat): seq<nat>
    requires n <= |vs|
  {
    if n == 0 then []
    else OpenedLines(vs, n - 1) + (if OpensAt(vs, n - 1) then [n - 1] else [])
  }

  /** Moving on to the next line keeps the invariant of a state nothing changed. */
  lemma WfNextLine(st: ParseState, n: nat)
    requires Wf(st, n)
    ensures Wf(st, n + 1)
  {
  }

  /** Updating the open message without moving it keeps the invariant and the record lines. */
  lemma UpdateCurrentKeepsWf(st: ParseState, n: nat, m: Message)
    requires Wf(st, n)
    requires st.current.Some?
    requires m.lineNumber == st.current.value.lineNumber && m.indent == st.current.value.indent
    requires m.replyTo == st.current.value.replyTo && m.kind == st.current.value.kind
    requires m.kind == UnsentMessage ==> m.textParts == st.current.value.textParts
    ensures Wf(st.(current := Some(m)), n + 1)
    ensures LineNumbers(Closed(st.(current := Some(m)))) == LineNumbers(Closed(st))
  {
    assert st.current.value == Closed(st)[|Closed(st)| - 1];
    var st' := st.(current := Some(m));
    assert Closed(st') == st.messages + [m];
    assert LineNumbers(Closed(st')) == LineNumbers(Closed(st));
  }

  /** A message that opens at line `n` keeps the invariant and adds `n` to the record lines. */
  lemma OpeningStepKeepsWf(st: ParseState, n: nat, m: Message, st': ParseState)
    requires Wf(st, n)
    requires m.lineNumber == n && m.textParts == []
    requires m.replyTo.Some? ==> 0 < m.indent && Some(m.replyTo.value) in st'.replyStack
    requires st' == st.(messages := Closed(st), current := Some(m), replyStack := st'.replyStack)
    requires forall e :: e in st'.replyStack ==> e in st.replyStack
    ensures Wf(st', n + 1)
    ensures LineNumbers(Closed(st')) == LineNumbers(Closed(st)) + [n]
  {
    assert Closed(st') == Closed(st) + [m];
    var ls := LineNumbers(Closed(st));
    assert LineNumbers(Closed(st')) == ls + [n];
    assert forall e :: e in st'.replyStack && e.Some? ==> e.value < n;
  }

  lemma TapbackEntryKeepsWf(st: ParseState, n: nat, v: LineView)
    requires Wf(st, n)
    ensures Wf(st.(tapbacks := st.tapbacks + TapbackOf(st, v)), n + 1)
  {
    if st.current.Some? {
      assert st.current.value == Closed(st)[|Closed(st)| - 1];
    }
  }

  lemma TimestampKeepsWf(st: ParseState, n: nat, v: LineView, date: string)
    requires Wf(st, n)
    ensures Apply(st, n, v, TimestampLine(date)).Ok?
    ensures Wf(Apply(st, n, v, TimestampLine(date)).value, n + 1)
    ensures LineNumbers(Closed(Apply(st, n, v, TimestampLine(date)).value)) == LineNumbers(Closed(st)) + [n]
  {
    var st' := Apply(st, n, v, TimestampLine(date)).value;
    var m := st'.current.value;
    assert forall e :: e in st'.replyStack ==> e in st.replyStack;
    if m.replyTo.Some? {
      assert st'.replyStack[|st'.replyStack| - 1] in st'.replyStack;
    }
    OpeningStepKeepsWf(st, n, m, st');
  }

  lemma SenderKeepsWf(st: ParseState, n: nat, v: LineView)
    requires Wf(st, n)
    requires st.current.Some? && st.current.value.sender.None?
    ensures Apply(st, n, v, SenderLine).Ok?
    ensures Wf(Apply(st, n, v, SenderLine).value, n + 1)
    ensures LineNumbers(Closed(Apply(st, n, v, SenderLine).value)) == LineNumbers(Closed(st))
  {
    var m := st.current.value.(sender := Some(v.trimmed), isFromMe := v.trimmed == Self);
    UpdateCurrentKeepsWf(st, n, m);
    var mid := st.(current := Some(m));
    var st' := Apply(st, n, v, SenderLine).value;
    assert st' == mid.(replyStack := Register(st.replyStack, v.indent, n));
    var ls := LineNumbers(Closed(st));
    assert LineNumbers(Closed(st')) == ls by {
      assert Closed(st') == Closed(mid);
    }
    forall e | e in st'.replyStack && e.Some? ensures e.value < n + 1 && e.value !in ls {
      var k :| 0 <= k < |st'.replyStack| && st'.replyStack[k] == e;
      if k != v.indent {
        assert st.replyStack[k] in st.replyStack;
      }
    }
  }

  /** One classified line keeps the invariant, and adds its own index to the record lines exactly when it opens a message. */
  lemma ApplyKeepsWf(st: ParseState, n: nat, v: LineView, c: LineClass)
    requires ClassFits(st, c)
    requires Wf(st, n)
    requires Apply(st, n, v, c).Ok?
    ensures Wf(Apply(st, n, v, c).value, n + 1)
    ensures LineNumbers(Closed(Apply(st, n, v, c).value)) ==
      LineNumbers(Closed(st)) + (if Opens(c) then [n] else [])
  {
    var st' := Apply(st, n, v, c).value;
    match c
    case Blank =>
      assert Closed(st') == Closed(st);
      WfNextLine(st, n);
    case TapbacksHeaderLine =>
      assert Closed(st') == Closed(st);
      WfNextLine(st, n);
    case TapbackEntry =>
      assert st' == st.(tapbacks := st.tapbacks + TapbackOf(st, v));
      TapbackEntryKeepsWf(st, n, v);
    case DuplicateMarkerLine =>
      if st.current.Some? {
        UpdateCurrentKeepsWf(st, n, st.current.value.(isDuplicate := true));
      } else {
        WfNextLine(st, n);
      }
    case UnsentLine(sender) =>
      OpeningStepKeepsWf(st, n, st'.current.value, st');
    case TimestampLine(date) =>
      TimestampKeepsWf(st, n, v, date);
    case SenderLine =>
      SenderKeepsWf(st, n, v);
    case EditedLine(edit) =>
      UpdateCurrentKeepsWf(st, n, st.current.value.(edit := Some(edit)));
    case AttachmentLine(found) =>
      UpdateCurrentKeepsWf(st, n, st'.current.value);
    case BodyLine =>
      if st.current.Some? && HasSender(st.current.value) {
        UpdateCurrentKeepsWf(st, n, st'.current.value);
      } else {
        WfNextLine(st, n);
      }
  }

  /**
   * The state after any prefix keeps the invariant, and its records are exactly
   * the messages opened by that prefix, each once, in file order.
   */
  lemma {:induction false} RunPrefixFacts(vs: seq<LineView>, n: nat)
    requires n <= |vs|
    requires RunPrefix(vs, n).Ok?
    ensures Wf(RunPrefix(vs, n).value, n)
    ensures LineNumbers(Closed(RunPrefix(vs, n).value)) == OpenedLines(vs, n)
  {
    if n > 0 {
      RunPrefixFacts(vs, n - 1);
      var st := RunPrefix(vs, n - 1).value;
      ApplyKeepsWf(st, n - 1, vs[n - 1], Classify(st, vs[n - 1]));
    }
  }

  // ---------------------------------------------------------------------
  // Post-passes

  /** The post-passes keep every record where it is and change only its text and duplicate flag. */
  lemma PostProcessKeepsRecords(drafts: seq<Message>)
    ensures |PostProcess(drafts)| == |drafts|
    ensures forall k :: 0 <= k < |drafts| ==>
      var m := PostProcess(drafts)[k];
      && m == drafts[k].(text := m.text, textParts := m.textParts, isDuplicate := m.isDuplicate)
      && (drafts[k].isDuplicate ==> m.isDuplicate)
      && (drafts[k].kind == TextMessage ==> m.textParts == [])
      && m.text == (if drafts[k].kind == TextMessage then Strip(JoinLines(drafts[k].textParts)) else drafts[k].text)
  {
  }

  /**
   * After the signature pass a message is flagged exactly when the marker
   * flagged it or an earlier message has the same signature; so no two
   * unflagged messages share a signature.
   */
  lemma DuplicateFlags(drafts: seq<Message>)
    ensures var ms := PostProcess(drafts);
      forall k :: 0 <= k < |ms| ==>
        (ms[k].isDuplicate <==> drafts[k].isDuplicate || exists j :: 0 <= j < k && Signature(ms[j]) == Signature(ms[k]))
    ensures var ms := PostProcess(drafts);
      forall i, j :: 0 <= i < j < |ms| && !ms[i].isDuplicate && !ms[j].isDuplicate ==> Signature(ms[i]) != Signature(ms[j])
  {
    var fs := FinalizeAll(drafts);
    var ms := PostProcess(drafts);
    assert forall k :: 0 <= k < |ms| ==> Signature(ms[k]) == Signature(fs[k]);
    forall k | 0 <= k < |ms|
      ensures ms[k].isDuplicate <==> drafts[k].isDuplicate || exists j :: 0 <= j < k && Signature(ms[j]) == Signature(ms[k])
    {
      if SeenEarlier(fs, k) {
        var j :| 0 <= j < k && Signature(fs[j]) == Signature(fs[k]);
        assert Signature(ms[j]) == Signature(ms[k]);
      }
    }
  }

  /** How many attachment references the messages hold. */
  function ReferenceCount(ms: seq<Message>): nat
  {
    if ms == [] then 0 else ReferenceCount(ms[..|ms| - 1]) + |ms[|ms| - 1].attachments|
  }

  /**
   * One descriptor per reference, each naming the line of a message that holds
   * it, with a path and a size exactly when its bare file name is cached.
   */
  lemma {:induction false} ResolvedDescriptors(ms: seq<Message>, cache: Cache)
    ensures |ResolveAttachments(ms, cache)| == ReferenceCount(ms)
    ensures forall r :: r in ResolveAttachments(ms, cache) ==>
      && r.messageLine in LineNumbers(ms)
      && (r.relPath.Some? <==> r.filename in cache)
      && (r.size.Some? <==> r.filename in cache)
      && (r.filename in cache ==> r.relPath.value == cache[r.filename].relPath && r.size.value == cache[r.filename].size)
  {
    if ms != [] {
      var init := ms[..|ms| - 1];
      var last := ms[|ms| - 1];
      ResolvedDescriptors(init, cache);
      assert LineNumbers(ms) == LineNumbers(init) + [last.lineNumber];
      forall r | r in ResolveAll(last.lineNumber, last.attachments, cache)
        ensures r.messageLine == last.lineNumber && (r.relPath.Some? <==> r.filename in cache)
      {
        var k :| 0 <= k < |last.attachments| && ResolveAll(last.lineNumber, last.attachments, cache)[k] == r;
      }
    }
  }

  // ---------------------------------------------------------------------
  // What the parser returns

  /**
   * The messages are the records opened by the lines, each once and in file
   * order; every tapback and every attachment descriptor points at one of them;
   * a provisional parent belongs to an indented message, precedes it, and is a
   * line that opened no message (the reply stack holds sender lines).
   */
  lemma ParsedMessagesInFileOrder(vs: seq<LineView>, cache: Cache)
    requires ParseViews(vs, cache).Ok?
    ensures var p := ParseViews(vs, cache).value;
      var ls := LineNumbers(p.messages);
      && ls == OpenedLines(vs, |vs|)
      && StrictlyIncreasing(ls)
      && (forall t :: t in p.tapbacks ==> t.targetLine in ls)
      && (forall r :: r in p.attachments ==> r.messageLine in ls)
      && (forall k :: 0 <= k < |p.messages| && p.messages[k].replyTo.Some? ==>
            && 0 < p.messages[k].indent
            && p.messages[k].replyTo.value < p.messages[k].lineNumber
            && p.messages[k].replyTo.value !in ls)
  {
    var st := RunPrefix(vs, |vs|).value;
    RunPrefixFacts(vs, |vs|);
    var drafts := Closed(st);
    var ms := PostProcess(drafts);
    PostProcessKeepsRecords(drafts);
    assert LineNumbers(ms) == LineNumbers(drafts);
    ResolvedDescriptors(ms, cache);
  }
}
