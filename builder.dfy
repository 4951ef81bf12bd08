/**
 * `MessageDatabaseBuilder` (database.py:16-619): the attachment cache it keeps
 * across conversations, the transcript parser, the per-conversation import and
 * the top-level build, each proved to compute what modules Transcript, Ingest
 * and AttachmentIndex specify.
 */
module Builder {
  import opened Basics
  import opened Text
  import opened Recognisers
  import opened AttachmentIndex
  import opened Transcript
  import opened TranscriptProperties
  import opened Store
  import opened Ingest

  /**
   * A directory of the export root as `iterdir` reports it: whether it is a
   * directory, the transcript files it holds (name to the lines `readlines()`
   * returns), and the files under its `attachments` subdirectory in walk
   * order, absent when there is no such subdirectory.
   */
  datatype ExportEntry = ExportEntry(
    name: string,
    isDir: bool,
    transcripts: map<string, seq<string>>,
    attachmentFiles: Option<seq<ScannedFile>>)

  /** What `import_conversation` does: returns `True`, returns `False`, or raises. */
  datatype Outcome = Imported | NotImported | Raised(error: ParseError)

  /** The conversation directories `build_database` accepts, with their target numbers, in order. */
  function ConversationDirs(entries: seq<ExportEntry>): (dirs: seq<(ExportEntry, string)>)
    ensures |dirs| <= |entries|
  {
    if entries == [] then []
    else
      var e := entries[|entries| - 1];
      var target := ConversationTarget(e.name);
      ConversationDirs(entries[..|entries| - 1]) + (if e.isDir && target.Some? then [(e, target.value)] else [])
  }

  /** The transcript an entry holds for a target, if the file exists. */
  function TranscriptOf(e: ExportEntry, target: string): Option<seq<string>>
  {
    if TranscriptFileName(target) in e.transcripts then Some(e.transcripts[TranscriptFileName(target)]) else None
  }

  /** The builder's state: the attachment cache and the tables. */
  datatype Snapshot = Snapshot(cache: Cache, tables: Tables)

  /**
   * What `import_conversation` does to the builder's state for a conversation
   * directory holding `transcript` (absent when the file does not exist) and
   * the attachment walk `files`: nothing without a transcript; otherwise the
   * cache takes in the walk, and the tables change only when the transcript
   * parses into at least one message.
   */
  function ImportEffect(s: Snapshot, transcript: Option<seq<string>>, files: Option<seq<ScannedFile>>, target: string)
    : (Snapshot, Outcome)
  {
    if transcript.None? then (s, NotImported)
    else
      var cache := if files.None? then s.cache else CacheAfter(s.cache, files.value);
      match ParseConversation(transcript.value, cache)
      case Err(e) => (Snapshot(cache, s.tables), Raised(e))
      case Ok(p) =>
        if p.messages == [] then (Snapshot(cache, s.tables), NotImported)
        else (Snapshot(cache, Import(s.tables, target, p)), Imported)
  }

  /** The import of one accepted directory, paired with its target. */
  function ImportStep(s: Snapshot, d: (ExportEntry, string)): (Snapshot, Outcome)
  {
    ImportEffect(s, TranscriptOf(d.0, d.1), d.0.attachmentFiles, d.1)
  }

  /** Directories imported one after another by `step`: the final state and the number of successes. */
  function FoldImports(step: (Snapshot, (ExportEntry, string)) -> (Snapshot, Outcome), s: Snapshot,
                       dirs: seq<(ExportEntry, string)>): (Snapshot, nat)
  {
    if dirs == [] then (s, 0)
    else
      var (s', count) := FoldImports(step, s, dirs[..|dirs| - 1]);
      var (s'', outcome) := step(s', dirs[|dirs| - 1]);
      (s'', count + if outcome == Imported then 1 else 0)
  }

  /** The loop of `build_database` over the accepted directories: the final state and `success_count`. */
  function ImportAll(s: Snapshot, dirs: seq<(ExportEntry, string)>): (Snapshot, nat)
  {
    FoldImports(ImportStep, s, dirs)
  }

  /** One more directory adds one step to the fold. */
  lemma FoldImportsStep(step: (Snapshot, (ExportEntry, string)) -> (Snapshot, Outcome), s: Snapshot,
                        dirs: seq<(ExportEntry, string)>, k: nat,
                        before: Snapshot, count: nat, after: Snapshot, outcome: Outcome)
    requires k < |dirs|
    requires FoldImports(step, s, dirs[..k]) == (before, count) && (after, outcome) == step(before, dirs[k])
    ensures FoldImports(step, s, dirs[..k + 1]) == (after, if outcome == Imported then count + 1 else count)
  {
    PrefixFacts(dirs, k);
  }

  /** One more directory: `build_database`'s state after it, from the state before and the import's effect. */
  lemma ImportAllStep(s: Snapshot, dirs: seq<(ExportEntry, string)>, k: nat,
                      before: Snapshot, count: nat, after: Snapshot, outcome: Outcome)
    requires k < |dirs|
    requires ImportAll(s, dirs[..k]) == (before, count)
    requires (after, outcome) == ImportEffect(before, TranscriptOf(dirs[k].0, dirs[k].1), dirs[k].0.attachmentFiles, dirs[k].1)
    ensures ImportAll(s, dirs[..k + 1]) == (after, if outcome == Imported then count + 1 else count)
  {
    FoldImportsStep(ImportStep, s, dirs, k, before, count, after, outcome);
  }

  /**
   * The accepted directories are exactly the directory entries whose name is
   * `p` followed by at least ten digits, each paired with `+` and those digits.
   */
  lemma {:induction false} ConversationDirsMeaning(entries: seq<ExportEntry>)
    ensures forall d :: d in ConversationDirs(entries) ==>
      d.0 in entries && d.0.isDir && ConversationTarget(d.0.name) == Some(d.1)
    ensures forall e :: e in entries && e.isDir && ConversationTarget(e.name).Some? ==>
      (e, ConversationTarget(e.name).value) in ConversationDirs(entries)
  {
    if entries != [] {
      var init := entries[..|entries| - 1];
      ConversationDirsMeaning(init);
      assert entries == init + [entries[|entries| - 1]];
    }
  }

  /** Entries with distinct names give distinct target numbers. */
  lemma {:induction false} DistinctTargets(entries: seq<ExportEntry>)
    requires forall i, j :: 0 <= i < j < |entries| ==> entries[i].name != entries[j].name
    ensures forall i, j :: 0 <= i < j < |ConversationDirs(entries)| ==>
      ConversationDirs(entries)[i].1 != ConversationDirs(entries)[j].1
  {
    if entries != [] {
      var n := |entries| - 1;
      var init := entries[..n];
      var e := entries[n];
      DistinctTargets(init);
      ConversationDirsMeaning(init);
      var before := ConversationDirs(init);
      var dirs := ConversationDirs(entries);
      assert init == entries[..|entries| - 1];
      if e.isDir && ConversationTarget(e.name).Some? {
        assert dirs == before + [(e, ConversationTarget(e.name).value)];
        forall i | 0 <= i < |before| ensures before[i].1 != dirs[|before|].1 {
          var d := before[i];
          assert d in before;
          if d.1 == dirs[|before|].1 {
            ConversationTargetInjective(d.0.name, e.name);
          }
        }
        forall i, j | 0 <= i < j < |dirs| ensures dirs[i].1 != dirs[j].1 {
          assert dirs[i] == before[i];
          if j < |before| {
            assert dirs[j] == before[j];
          }
        }
      } else {
        assert dirs == before;
      }
    }
  }

  /**
   * One `import_conversation`: the cache only grows; the tables change only
   * when it returns `True`, and then they gain rows and no target but its own.
   */
  lemma ImportEffectFacts(s: Snapshot, transcript: Option<seq<string>>, files: Option<seq<ScannedFile>>, target: string)
    ensures var (s', outcome) := ImportEffect(s, transcript, files, target);
      && s.cache.Keys <= s'.cache.Keys
      && (transcript.None? ==> s' == s && outcome == NotImported)
      && (outcome != Imported ==> s'.tables == s.tables)
      && (outcome == Imported ==>
            |s'.tables.messages| > |s.tables.messages| && Targets(s'.tables.messages) <= Targets(s.tables.messages) + {target})
  {
    if transcript.Some? {
      if files.Some? {
        CacheNeverForgets(s.cache, files.value);
      }
      var cache := if files.None? then s.cache else CacheAfter(s.cache, files.value);
      var r := ParseConversation(transcript.value, cache);
      if r.Ok? && r.value.messages != [] {
        ImportAddsOnlyItsTarget(s.tables, target, r.value);
        assert |Import(s.tables, target, r.value).messages| == |s.tables.messages| + |r.value.messages|;
      }
    }
  }

  /**
   * The import loop of `build_database`: at most one success per directory,
   * a cache that only grows, and rows only of the targets it imported besides
   * the ones already there.
   */
  lemma {:induction false} ImportAllFacts(s: Snapshot, dirs: seq<(ExportEntry, string)>)
    ensures var (s', count) := ImportAll(s, dirs);
      && count <= |dirs|
      && s.cache.Keys <= s'.cache.Keys
      && Targets(s'.tables.messages) <= Targets(s.tables.messages) + set d | d in dirs :: d.1
  {
    if dirs != [] {
      var init := dirs[..|dirs| - 1];
      ImportAllFacts(s, init);
      var (s1, _) := ImportAll(s, init);
      var (e, target) := dirs[|dirs| - 1];
      ImportEffectFacts(s1, TranscriptOf(e, target), e.attachmentFiles, target);
      SecondsSnoc(dirs);
    }
  }

  lemma SecondsSnoc<A, B>(xs: seq<(A, B)>)
    requires xs != []
    ensures (set d | d in xs[..|xs| - 1] :: d.1) + {xs[|xs| - 1].1} == set d | d in xs :: d.1
  {
    assert xs == xs[..|xs| - 1] + [xs[|xs| - 1]];
  }

  /**
   * When the directories have distinct targets and the tables hold none of
   * their rows yet, each import of `build_database` is the first of its
   * target: no earlier row belongs to it, so ImportKeepsEarlierRows, ImportedRows, ImportedReplyGate, ImportedReplyTarget
   * and ImportedCounts describe every import.
   */
  lemma EveryImportIsFirst(s: Snapshot, dirs: seq<(ExportEntry, string)>, k: nat)
    requires forall i, j :: 0 <= i < j < |dirs| ==> dirs[i].1 != dirs[j].1
    requires forall d :: d in dirs ==> d.1 !in Targets(s.tables.messages)
    requires k < |dirs|
    ensures forall r :: r in ImportAll(s, dirs[..k]).0.tables.messages ==> r.target != dirs[k].1
  {
    var before := dirs[..k];
    ImportAllFacts(s, before);
    var rows := ImportAll(s, before).0.tables.messages;
    forall r | r in rows ensures r.target != dirs[k].1 {
      assert r.target in Targets(rows);
    }
  }

  /** The tables of a freshly created schema. */
  const EmptyTables: Tables := Tables(map[], [], [], [])

  /**
   * Every import of a build is the first of its target: the build starts from
   * a fresh schema and the export root holds each directory name once, so no
   * earlier import has written a row for the target of the k-th directory.
   */
  lemma EveryBuildImportIsFirst(cache: Cache, entries: seq<ExportEntry>, k: nat)
    requires forall i, j :: 0 <= i < j < |entries| ==> entries[i].name != entries[j].name
    requires k < |ConversationDirs(entries)|
    ensures var dirs := ConversationDirs(entries);
      forall r :: r in ImportAll(Snapshot(cache, EmptyTables), dirs[..k]).0.tables.messages ==> r.target != dirs[k].1
  {
    var dirs := ConversationDirs(entries);
    DistinctTargets(entries);
    assert Targets(EmptyTables.messages) == {};
    EveryImportIsFirst(Snapshot(cache, EmptyTables), dirs, k);
  }

  class MessageDatabaseBuilder {
    /** `self.attachment_cache`: filled by every import, never cleared. */
    var attachmentCache: Cache
    /** The open connection's tables. */
    var db: Database

    /** A builder with an empty cache over a freshly created schema. */
    constructor ()
      ensures attachmentCache == map[]
      ensures fresh(db) && db.conversations == map[] && db.messages == [] && db.attachments == [] && db.tapbacks == []
    {
      attachmentCache := map[];
      db := new Database();
    }

    /**
     * `import_conversation` for a directory holding `transcript` (absent when
     * the file named after the target does not exist) and the attachment walk
     * `files`. A parse error propagates as `Raised`, after the cache has been
     * filled and before any table is written.
     */
    method ImportConversation(transcript: Option<seq<string>>, files: Option<seq<ScannedFile>>, target: string)
      returns (outcome: Outcome)
      modifies this, db
      ensures db == old(db)
      ensures (Snapshot(attachmentCache, db.State()), outcome)
        == ImportEffect(Snapshot(old(attachmentCache), old(db.State())), transcript, files, target)
    {
      if transcript.None? {
        return NotImported;
      }
      BuildAttachmentCache(files);
      var r := ParseConversationFile(transcript.value);
      if r.Err? {
        return Raised(r.error);
      }
      var p := r.value;
      var ms := p.messages;
      if ms == [] {
        return NotImported;
      }
      WriteConversation(target, p);
      return Imported;
    }

    /**
     * The writes of `import_conversation` once the transcript has parsed into
     * at least one message: the conversation row, the message rows, the reply
     * ids, the attachment and tapback rows, then the two counts.
     */
    method WriteConversation(target: string, p: Parsed)
      requires p.messages != []
      modifies db
      ensures db.State() == Import(old(db.State()), target, p)
    {
      var ms := p.messages;
      ghost var t := db.State();
      var ids := WriteMessages(target, ms);
      ghost var replaced := db.conversations;
      var atts := AttachmentDataOf(target, p.attachments, ids);
      db.InsertAttachments(atts);
      var tbs := TapbackDataOf(target, p.tapbacks, ids);
      db.InsertTapbacks(tbs);
      assert db.conversations == replaced && target in replaced;
      db.SetCounts(target, MessageCount(ms), |atts|);
      UpdateTwice(t.conversations, target, ConversationRow(None, 0, 0, Some(ms[0].date), Some(ms[|ms| - 1].date)),
        ConversationRow(None, MessageCount(ms), |atts|, Some(ms[0].date), Some(ms[|ms| - 1].date)));
    }

    /**
     * The first writes of `import_conversation`: the conversation row with its
     * dates, the message rows, the `line_to_db_id` query and the reply ids.
     */
    method WriteMessages(target: string, ms: seq<Message>) returns (ids: map<nat, nat>)
      requires ms != []
      modifies db
      ensures db.conversations == old(db.conversations)[target := ConversationRow(None, 0, 0, Some(ms[0].date), Some(ms[|ms| - 1].date))]
      ensures db.messages == ImportedMessages(old(db.messages), target, ms)
      ensures ids == ImportIds(old(db.messages), target, ms)
      ensures db.attachments == old(db.attachments) && db.tapbacks == old(db.tapbacks)
    {
      db.ReplaceConversation(target, Some(ms[0].date), Some(ms[|ms| - 1].date));
      var rows := MessageRowsOf(target, ms);
      db.InsertMessages(rows);
      ids := db.LineToId(target);
      var updates := ReplyUpdatesOf(ms, ids);
      db.UpdateReplies(updates);
    }

    /**
     * `build_database` over the entries of the export root: the schema is
     * created afresh, then no accepted directory means `False` at once;
     * otherwise every directory is imported in turn, an exception only
     * skipping its directory, and the result is whether any import returned
     * `True`.
     */
    method BuildDatabase(entries: seq<ExportEntry>) returns (ok: bool)
      modifies this, db
      ensures db == old(db)
      ensures var dirs := ConversationDirs(entries);
        var (s, count) := ImportAll(Snapshot(old(attachmentCache), EmptyTables), dirs);
        && (ok <==> dirs != [] && count > 0)
        && attachmentCache == s.cache && db.State() == s.tables
    {
      db.Reset();
      var dirs := CollectConversationDirs(entries);
      if dirs == [] {
        return false;
      }
      ghost var s0 := Snapshot(attachmentCache, db.State());
      var successCount := 0;
      var k := 0;
      while k < |dirs|
        invariant k <= |dirs|
        invariant db == old(db)
        invariant ImportAll(s0, dirs[..k]) == (Snapshot(attachmentCache, db.State()), successCount)
      {
        ghost var before := Snapshot(attachmentCache, db.State());
        var (e, target) := dirs[k];
        var outcome := ImportConversation(TranscriptOf(e, target), e.attachmentFiles, target);
        ImportAllStep(s0, dirs, k, before, successCount, Snapshot(attachmentCache, db.State()), outcome);
        if outcome == Imported {
          successCount := successCount + 1;
        }
        k := k + 1;
      }
      PrefixFacts(dirs, k);
      return successCount > 0;
    }

    /** `build_attachment_cache`: nothing happens without an `attachments` subdirectory. */
    method BuildAttachmentCache(files: Option<seq<ScannedFile>>)
      modifies this
      ensures files.None? ==> attachmentCache == old(attachmentCache)
      ensures files.Some? ==> attachmentCache == CacheAfter(old(attachmentCache), files.value)
      ensures db == old(db)
    {
      if files.None? {
        return;
      }
      var walk := files.value;
      var k := 0;
      while k < |walk|
        invariant k <= |walk|
        invariant attachmentCache == CacheAfter(old(attachmentCache), walk[..k])
        invariant db == old(db)
      {
        assert walk[..k + 1][..k] == walk[..k];
        var f := walk[k];
        if !(|f.name| > 0 && f.name[0] == '.') && f.size.Some? {
          attachmentCache := attachmentCache[f.name := CacheEntry(f.relPath, f.size.value, DirectoryNumberOf(f.relPath))];
        }
        k := k + 1;
      }
      assert walk[..k] == walk;
    }

    /** `parse_conversation_file` on the lines of a transcript, looking attachments up in the cache. */
    method ParseConversationFile(lines: seq<string>) returns (r: Result<Parsed, ParseError>)
      ensures r == ParseConversation(lines, attachmentCache)
    {
      var views := ReadLines(lines);
      r := ParseLineViews(views);
    }

    /** `parse_conversation_file` once every line has been read: the line loop, then the post-passes. */
    method ParseLineViews(views: seq<LineView>) returns (r: Result<Parsed, ParseError>)
      ensures r == ParseViews(views, attachmentCache)
    {
      var current, inTapbacks, replyStack, messages, tapbacks, error := ScanViews(views);
      if error.Some? {
        return Err(error.value);
      }
      ghost var st := ParseState(current, inTapbacks, replyStack, messages, tapbacks);
      if current.Some? {
        messages := messages + [current.value];
      }
      assert messages == Closed(st);
      messages := PostProcessMessages(messages);
      var attachments := ResolveAttachmentRefs(messages);
      return Ok(Parsed(messages, attachments, tapbacks));
    }

    /** The attachment post-pass of `parse_conversation_file`: every reference of every message, looked up. */
    method ResolveAttachmentRefs(ms: seq<Message>) returns (atts: seq<AttachmentRecord>)
      ensures atts == ResolveAttachments(ms, attachmentCache)
    {
      atts := [];
      var k := 0;
      while k < |ms|
        invariant k <= |ms|
        invariant atts == ResolveAttachments(ms[..k], attachmentCache)
      {
        assert ms[..k + 1][..k] == ms[..k];
        var refs := ms[k].attachments;
        ghost var before := atts;
        var j := 0;
        while j < |refs|
          invariant j <= |refs|
          invariant atts == before + ResolveAll(ms[k].lineNumber, refs[..j], attachmentCache)
        {
          var a := refs[j];
          var record := AttachmentRecord(ms[k].lineNumber, a.filename, a.directoryNumber, a.isSticker, None, None);
          if a.filename in attachmentCache {
            var entry := attachmentCache[a.filename];
            record := record.(relPath := Some(entry.relPath), size := Some(entry.size));
          }
          atts := atts + [record];
          assert ResolveAll(ms[k].lineNumber, refs[..j + 1], attachmentCache)
              == ResolveAll(ms[k].lineNumber, refs[..j], attachmentCache) + [record];
          j := j + 1;
        }
        assert refs[..j] == refs;
        k := k + 1;
      }
      assert ms[..k] == ms;
    }
  }

  /** The directory scan of `build_database`: directories whose name gives a target number, in order. */
  method CollectConversationDirs(entries: seq<ExportEntry>) returns (dirs: seq<(ExportEntry, string)>)
    ensures dirs == ConversationDirs(entries)
  {
    dirs := [];
    var k := 0;
    while k < |entries|
      invariant k <= |entries|
      invariant dirs == ConversationDirs(entries[..k])
    {
      assert entries[..k + 1][..k] == entries[..k];
      var item := entries[k];
      if item.isDir {
        var target := ConversationTarget(item.name);
        if target.Some? {
          dirs := dirs + [(item, target.value)];
        }
      }
      k := k + 1;
    }
    assert entries[..k] == entries;
  }

  /** `_find_parent_message_line`: the two scans, the second one backwards from the message found. */
  method FindParentMessageLine(ms: seq<Message>, m: Message) returns (r: Option<nat>)
    ensures r == FindParentLine(ms, m)
  {
    var currentIdx: Option<nat> := None;
    var i := 0;
    while i < |ms|
      invariant i <= |ms|
      invariant IndexOfLine(ms, m.lineNumber, 0) == IndexOfLine(ms, m.lineNumber, i)
    {
      if ms[i].lineNumber == m.lineNumber {
        currentIdx := Some(i);
        break;
      }
      i := i + 1;
    }
    assert currentIdx == IndexOfLine(ms, m.lineNumber, 0);
    if currentIdx.None? || m.indent == 0 {
      return None;
    }
    var j: nat := currentIdx.value;
    while j > 0
      invariant currentIdx.Some? && j <= currentIdx.value <= |ms|
      invariant NearestShallower(ms, currentIdx.value, m.indent) == NearestShallower(ms, j, m.indent)
    {
      if ms[j - 1].indent < m.indent {
        return Some(ms[j - 1].lineNumber);
      }
      j := j - 1;
    }
    return None;
  }

  /** `message_data`: the row of each message, in order, with no parent id yet. */
  method MessageRowsOf(target: string, ms: seq<Message>) returns (rows: seq<MessageRow>)
    ensures rows == MessageRows(target, ms)
  {
    rows := [];
    var k := 0;
    while k < |ms|
      invariant k <= |ms| && |rows| == k
      invariant forall j :: 0 <= j < k ==> rows[j] == RowOf(target, ms[j])
    {
      var m := ms[k];
      rows := rows + [MessageRow(target, m.date, m.sender, m.text, m.isFromMe, None, m.kind, m.indent, m.readReceipt,
                                 if m.edit.Some? then Some(m.edit.value.text) else None,
                                 if m.edit.Some? then Some(m.edit.value.stamp) else None,
                                 m.kind == UnsentMessage, m.expressive, m.lineNumber, m.isDuplicate)];
      k := k + 1;
    }
  }

  /** `reply_updates`: for each message in order, the edge of the reply gate when it passes. */
  method ReplyUpdatesOf(ms: seq<Message>, ids: map<nat, nat>) returns (updates: seq<(nat, nat)>)
    ensures updates == ReplyUpdates(ms, ids)
  {
    ghost var es := Edges(ms, ids);
    updates := [];
    var k := 0;
    while k < |ms|
      invariant k <= |ms|
      invariant updates == Present(es[..k])
    {
      PresentStep(es, k);
      var m := ms[k];
      if m.replyTo.Some? && m.lineNumber in ids {
        var parent := FindParentMessageLine(ms, m);
        if parent.Some? && parent.value != 0 && parent.value in ids {
          updates := updates + [(ids[parent.value], ids[m.lineNumber])];
        }
      }
      k := k + 1;
    }
    PresentStep(es, k);
  }

  lemma UpdateTwice<K, V>(m: map<K, V>, k: K, v: V, w: V)
    ensures m[k := v][k := w] == m[k := w]
  {
  }

  /** `Present` of a prefix one element longer, and of the whole sequence. */
  lemma PresentStep<T>(xs: seq<Option<T>>, k: nat)
    requires k <= |xs|
    ensures k < |xs| ==> Present(xs[..k + 1]) == Present(xs[..k]) + (if xs[k].Some? then [xs[k].value] else [])
    ensures k == |xs| ==> Present(xs[..k]) == Present(xs)
  {
    PrefixFacts(xs, k);
  }

  /** `attachment_data`: a row for each descriptor whose message line has an id, in order. */
  method AttachmentDataOf(target: string, atts: seq<AttachmentRecord>, ids: map<nat, nat>) returns (rows: seq<AttachmentRow>)
    ensures rows == AttachmentData(target, atts, ids)
  {
    rows := [];
    var k := 0;
    while k < |atts|
      invariant k <= |atts|
      invariant rows == AttachmentData(target, atts[..k], ids)
    {
      PrefixFacts(atts, k);
      var att := atts[k];
      if att.messageLine in ids {
        var messageId := ids[att.messageLine];
        rows := rows + [AttachmentRow(messageId, target, att.filename, att.relPath, att.directoryNumber, att.size,
                                      GuessMimeType(att.filename), att.isSticker)];
      }
      k := k + 1;
    }
    PrefixFacts(atts, k);
  }

  /** `tapback_data`: a row for each tapback whose target line has an id, in order. */
  method TapbackDataOf(target: string, tbs: seq<Tapback>, ids: map<nat, nat>) returns (rows: seq<TapbackRow>)
    ensures rows == TapbackData(target, tbs, ids)
  {
    rows := [];
    var k := 0;
    while k < |tbs|
      invariant k <= |tbs|
      invariant rows == TapbackData(target, tbs[..k], ids)
    {
      PrefixFacts(tbs, k);
      var tapback := tbs[k];
      if tapback.targetLine in ids {
        var messageId := ids[tapback.targetLine];
        rows := rows + [TapbackRow(messageId, target, tapback.reaction.sender, Label(tapback.reaction.kind),
                                   tapback.reaction.isFromMe)];
      }
      k := k + 1;
    }
    PrefixFacts(tbs, k);
  }

  /**
   * What the loop body of `parse_conversation_file` learns from each line of
   * `readlines()` once its terminator is removed. The tests are pure, so making
   * them for every line before the state machine runs, rather than line by
   * line, changes nothing.
   */
  method ReadLines(lines: seq<string>) returns (views: seq<LineView>)
    ensures views == Views(lines)
  {
    views := [];
    var n := 0;
    while n < |lines|
      invariant n <= |lines|
      invariant views == Views(lines[..n])
    {
      ViewsOfLongerPrefix(lines, n);
      var line := RStripBreaks(lines[n]);
      views := views + [View(line)];
      n := n + 1;
    }
    PrefixFacts(lines, n);
  }

  lemma PrefixFacts<T>(xs: seq<T>, n: nat)
    requires n <= |xs|
    ensures n < |xs| ==> xs[..n + 1][..n] == xs[..n] && xs[..n + 1][n] == xs[n]
    ensures n == |xs| ==> xs[..n] == xs
  {
  }

  /**
   * The line loop of `parse_conversation_file` (database.py:186-337) over the
   * lines seen as `vs`: the loop variables after the last line, or the error a
   * line raised.
   */
  method ScanViews(vs: seq<LineView>)
    returns (current: Option<Message>, inTapbacks: bool, replyStack: seq<Option<nat>>,
             messages: seq<Message>, tapbacks: seq<Tapback>, error: Option<ParseError>)
    ensures var r := RunPrefix(vs, |vs|);
      && (error.Some? <==> r.Err?)
      && (r.Err? ==> r.error == error.value)
      && (r.Ok? ==> r.value == ParseState(current, inTapbacks, replyStack, messages, tapbacks))
  {
    messages, tapbacks, current, inTapbacks, replyStack, error := [], [], None, false, [], None;
    var n := 0;
    while n < |vs|
      invariant n <= |vs|
      invariant RunPrefix(vs, n) == Ok(ParseState(current, inTapbacks, replyStack, messages, tapbacks))
    {
      var failed;
      current, inTapbacks, replyStack, messages, tapbacks, failed :=
        ParseLine(n, vs[n], current, inTapbacks, replyStack, messages, tapbacks);
      if failed {
        assert RunPrefix(vs, n + 1) == Err(MissingTextParts(n));
        ErrorPersists(vs, n + 1, |vs|);
        error := Some(MissingTextParts(n));
        return;
      }
      n := n + 1;
    }
  }

  /**
   * One pass of the loop body of `parse_conversation_file` over line `n`, seen
   * as `v`: the new loop variables, or `failed` when the line raises.
   */
  method ParseLine(n: nat, v: LineView, current0: Option<Message>, inTapbacks0: bool, replyStack0: seq<Option<nat>>,
                   messages0: seq<Message>, tapbacks0: seq<Tapback>)
    returns (current: Option<Message>, inTapbacks: bool, replyStack: seq<Option<nat>>,
             messages: seq<Message>, tapbacks: seq<Tapback>, failed: bool)
    ensures var r := Step(ParseState(current0, inTapbacks0, replyStack0, messages0, tapbacks0), n, v);
      && (failed <==> r.Err?)
      && (r.Err? ==> r.error == MissingTextParts(n))
      && (r.Ok? ==> r.value == ParseState(current, inTapbacks, replyStack, messages, tapbacks))
  {
    current, inTapbacks, replyStack, messages, tapbacks, failed :=
      current0, inTapbacks0, replyStack0, messages0, tapbacks0, false;
    if v.blank {
      inTapbacks := false;
    } else if v.trimmed == TapbacksHeader {
      inTapbacks := true;
    } else if inTapbacks {
      if current.Some? && v.tapback.Some? {
        tapbacks := tapbacks + [Tapback(v.tapback.value, current.value.lineNumber)];
      }
    } else if v.marker {
      if current.Some? {
        current := Some(current.value.(isDuplicate := true));
      }
    } else if v.unsent.Some? {
      if current.Some? {
        messages := messages + [current.value];
      }
      current := Some(UnsentRecord(n, v.indent, v.unsent.value));
    } else if v.timestamp.Some? {
      if current.Some? {
        messages := messages + [current.value];
      }
      var parent: Option<nat> := None;
      if v.indent > 0 {
        while |replyStack| > v.indent
          invariant |replyStack| <= |replyStack0| && replyStack == replyStack0[..|replyStack|]
          invariant |replyStack0| > v.indent ==> |replyStack| >= v.indent
          invariant |replyStack0| <= v.indent ==> replyStack == replyStack0
        {
          replyStack := replyStack[..|replyStack| - 1];
        }
        assert replyStack == Truncate(replyStack0, v.indent);
        if |replyStack| > 0 {
          parent := replyStack[|replyStack| - 1];
        }
      }
      current := Some(TimestampRecord(n, v.indent, v.timestamp.value, parent, v));
    } else if current.Some? && current.value.sender.None? {
      var sender := v.trimmed;
      current := Some(current.value.(sender := Some(sender), isFromMe := sender == Self));
      if |replyStack| <= v.indent {
        replyStack := replyStack + seq(v.indent + 1 - |replyStack|, _ => None);
      }
      replyStack := replyStack[v.indent := Some(n)];
      assert replyStack == Register(replyStack0, v.indent, n);
    } else if v.edited.Some? && current.Some? {
      current := Some(current.value.(edit := Some(v.edited.value)));
    } else if v.attachment.Some? && current.Some? {
      var found := v.attachment.value;
      var ref := AttachmentRef(found.filename, found.directory, v.sticker, v.stripped);
      current := Some(current.value.(attachments := current.value.attachments + [ref]));
    } else if current.Some? && HasSender(current.value) {
      if current.value.kind == UnsentMessage {
        failed := true;
      } else {
        current := Some(current.value.(textParts := current.value.textParts + [v.stripped]));
      }
    }
  }

  /**
   * The join-and-signature post-pass, updating the list in place: text messages
   * get their joined, stripped body, and a message whose signature was seen
   * before is flagged.
   */
  method PostProcessMessages(drafts: seq<Message>) returns (ms: seq<Message>)
    ensures ms == PostProcess(drafts)
  {
    ghost var finals := FinalizeAll(drafts);
    ghost var result := PostProcess(drafts);
    ms := drafts;
    var seen: set<string> := {};
    var k := 0;
    while k < |ms|
      invariant k <= |ms| == |drafts| == |result|
      invariant ms == result[..k] + drafts[k..]
      invariant seen == set j | 0 <= j < k :: Signature(finals[j])
    {
      PostProcessStep(drafts, k, ms, seen);
      var m := Finalize(ms[k]);
      var signature := Signature(m);
      if signature in seen {
        m := m.(isDuplicate := true);
      } else {
        seen := seen + {signature};
      }
      ms := ms[k := m];
      k := k + 1;
    }
  }

  /** One round of the post-pass loop: message `k` is finalized, flagged or its signature recorded. */
  lemma PostProcessStep(drafts: seq<Message>, k: nat, ms: seq<Message>, seen: set<string>)
    requires k < |drafts|
    requires ms == PostProcess(drafts)[..k] + drafts[k..]
    requires seen == set j | 0 <= j < k :: Signature(FinalizeAll(drafts)[j])
    ensures ms[k] == drafts[k]
    ensures var m := Finalize(drafts[k]); var signature := Signature(m);
      && ms[k := if signature in seen then m.(isDuplicate := true) else m] == PostProcess(drafts)[..k + 1] + drafts[k + 1..]
      && (if signature in seen then seen else seen + {signature}) == set j | 0 <= j < k + 1 :: Signature(FinalizeAll(drafts)[j])
  {
    var result := PostProcess(drafts);
    PostProcessAt(drafts, k, seen);
    Splice(result, drafts, k);
  }

  /**
   * Message `k` of the post-pass: finalized, and flagged when its signature is
   * among those of the messages before it.
   */
  lemma PostProcessAt(drafts: seq<Message>, k: nat, seen: set<string>)
    requires k < |drafts|
    requires seen == set j | 0 <= j < k :: Signature(FinalizeAll(drafts)[j])
    ensures |PostProcess(drafts)| == |drafts|
    ensures var m := Finalize(drafts[k]);
      PostProcess(drafts)[k] == m.(isDuplicate := m.isDuplicate || Signature(m) in seen)
    ensures seen + {Signature(Finalize(drafts[k]))} == set j | 0 <= j < k + 1 :: Signature(FinalizeAll(drafts)[j])
  {
    var finals := FinalizeAll(drafts);
    assert Signature(finals[k]) in seen <==> SeenEarlier(finals, k);
  }

  /** Replacing element `k` of `a[..k] + b[k..]` by `a[k]` moves the seam one place right. */
  lemma Splice<T>(a: seq<T>, b: seq<T>, k: nat)
    requires k < |a| == |b|
    ensures (a[..k] + b[k..])[k := a[k]] == a[..k + 1] + b[k + 1..]
  {
  }
}
