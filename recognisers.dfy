/**
 * The line recognisers of the transcript parser (database.py:23-36, 377) and the
 * other small pure helpers of the importer: the tapback parser, the MIME table,
 * the indentation measure and the conversation-directory filter.
 *
 * Each regular expression is replaced by a deterministic extractor that returns
 * what Python's `re` returns for it: `MatchAt(s, i)` is the match the
 * backtracking engine finds when it starts at index `i` (with the groups it
 * captures), and `Search` takes the leftmost start, as `re.search` does.
 * `.` is taken to match any character: the lines come from `readlines()`
 * followed by `rstrip('\n\r')` and so never contain a line feed.
 */
module Recognisers {
  import opened Basics
  import opened Text

  // ---------------------------------------------------------------------
  // Character classes

  /** `\d` (ASCII digits). */
  predicate IsDigit(c: char) { '0' <= c <= '9' }

  /** `\w` (ASCII letters, digits and underscore). */
  predicate IsWordChar(c: char)
  {
    'a' <= c <= 'z' || 'A' <= c <= 'Z' || IsDigit(c) || c == '_'
  }

  /** `[\w\s.-]`, the characters of an attachment file name. */
  predicate IsNameChar(c: char)
  {
    IsWordChar(c) || IsSpace(c) || c == '.' || c == '-'
  }

  /** `[/\\]`. */
  predicate IsSep(c: char) { c == '/' || c == '\\' }

  /** The end of the longest run of `p`-characters starting at `i` (a greedy `p*`). */
  function Span(s: string, i: nat, p: char -> bool): (e: nat)
    requires i <= |s|
    decreases |s| - i
    ensures i <= e <= |s|
    ensures e == |s| || !p(s[e])
  {
    if i < |s| && p(s[i]) then Span(s, i + 1, p) else i
  }

  /** Every character `Span` passes over satisfies `p`. */
  lemma {:induction false} SpanAll(s: string, i: nat, p: char -> bool)
    requires i <= |s|
    ensures forall k :: i <= k < Span(s, i, p) ==> p(s[k])
    decreases |s| - i
  {
    if i < |s| && p(s[i]) {
      SpanAll(s, i + 1, p);
    }
  }

  // ---------------------------------------------------------------------
  // Leftmost search, as `re.search` does it

  datatype Found<T> = Found(start: nat, groups: T)

  /** The first start position at or after `i` where `matchAt` succeeds. */
  /** The pattern does not match at `i`. */
  predicate NoMatchAt<T>(s: string, i: nat, matchAt: (string, nat) -> Option<T>)
  {
    matchAt(s, i).None?
  }

  function SearchFrom<T>(s: string, i: nat, matchAt: (string, nat) -> Option<T>): (r: Option<Found<T>>)
    decreases |s| + 1 - i
    ensures r.Some? ==> i <= r.value.start <= |s| && matchAt(s, r.value.start) == Some(r.value.groups)
    ensures forall k :: i <= k <= |s| && (r.None? || k < r.value.start) ==> NoMatchAt(s, k, matchAt)
  {
    if i > |s| then None
    else match matchAt(s, i)
      case Some(g) => Some(Found(i, g))
      case None => SearchFrom(s, i + 1, matchAt)
  }

  /** The groups of the leftmost match of a pattern in `s`, if any. */
  function Search<T>(s: string, matchAt: (string, nat) -> Option<T>): (r: Option<T>)
    ensures r.Some? ==> exists i :: 0 <= i <= |s| && matchAt(s, i) == r
    ensures r.None? ==> forall i :: 0 <= i <= |s| ==> NoMatchAt(s, i, matchAt)
  {
    match SearchFrom(s, 0, matchAt)
    case Some(f) => Some(f.groups)
    case None => None
  }

  // ---------------------------------------------------------------------
  // `(\w+ \d{1,2}, \d{4}\s+\d{1,2}:\d{2}:\d{2}\s+(?:AM|PM))`  (database.py:23-25)

  /** `\w+ \d{1,2}, \d{4}` at `i`: the index just after the year. */
  function DateEnd(s: string, i: nat): (r: Option<nat>)
    ensures r.Some? ==> i < r.value <= |s|
  {
    if i >= |s| then None
    else
      var w := Span(s, i, IsWordChar);
      if w == i || w >= |s| || s[w] != ' ' then None
      else
        var day := Span(s, w + 1, IsDigit);
        if !(1 <= day - (w + 1) <= 2 && day + 1 < |s| && s[day] == ',' && s[day + 1] == ' ') then None
        else
          var y := day + 2;
          if y + 4 <= |s| && IsDigit(s[y]) && IsDigit(s[y + 1]) && IsDigit(s[y + 2]) && IsDigit(s[y + 3])
          then Some(y + 4)
          else None
  }

  /** `\d{1,2}:\d{2}:\d{2}` at `j`: the index just after the seconds. */
  function ClockEnd(s: string, j: nat): (r: Option<nat>)
    requires j <= |s|
    ensures r.Some? ==> j < r.value <= |s|
  {
    var hour := Span(s, j, IsDigit);
    if 1 <= hour - j <= 2 && hour + 6 <= |s| && s[hour] == ':' && IsDigit(s[hour + 1])
       && IsDigit(s[hour + 2]) && s[hour + 3] == ':' && IsDigit(s[hour + 4]) && IsDigit(s[hour + 5])
    then Some(hour + 6)
    else None
  }

  /** `\s+(?:AM|PM)` at `c`: the index just after the meridiem. */
  function MeridiemEnd(s: string, c: nat): (r: Option<nat>)
    requires c <= |s|
    ensures r.Some? ==> c < r.value <= |s|
  {
    var gap := Span(s, c, IsSpace);
    if gap == c || !(OccursAt(s, "AM", gap) || OccursAt(s, "PM", gap)) then None
    else Some(gap + 2)
  }

  /** `\s+\d{1,2}:\d{2}:\d{2}\s+(?:AM|PM)` at `y`: the index just after the meridiem. */
  function TimeEnd(s: string, y: nat): (r: Option<nat>)
    requires y <= |s|
    ensures r.Some? ==> y < r.value <= |s|
  {
    var gap := Span(s, y, IsSpace);
    if gap == y then None
    else match ClockEnd(s, gap)
      case None => None
      case Some(c) => MeridiemEnd(s, c)
  }

  /** The index just after a match of the timestamp pattern starting at `i`. */
  function TimestampEnd(s: string, i: nat): (r: Option<nat>)
    ensures r.Some? ==> i < r.value <= |s|
  {
    match DateEnd(s, i)
    case None => None
    case Some(y) => TimeEnd(s, y)
  }

  /** The text matched by the timestamp pattern when it starts at `i`. */
  function TimestampAt(s: string, i: nat): (r: Option<string>)
    ensures r.Some? ==> i + |r.value| <= |s| && r.value == s[i..i + |r.value|]
  {
    match TimestampEnd(s, i)
    case None => None
    case Some(e) => Some(s[i..e])
  }

  /** `timestamp_pattern.search(s).group(1)`: the message date of a timestamp line. */
  function FindTimestamp(s: string): Option<string>
  {
    Search(s, TimestampAt)
  }

  // ---------------------------------------------------------------------
  // `\(Read by (them|you) after (.+?)\)`  (database.py:26-28)

  datatype ReadReceipt = ReadReceipt(readBy: string, duration: string)

  function ReadReceiptAt(s: string, i: nat): (r: Option<ReadReceipt>)
    ensures r.Some? ==> r.value.readBy == "them" || r.value.readBy == "you"
    ensures r.Some? ==> r.value.duration != [] && ')' !in r.value.duration[1..]
  {
    if !OccursAt(s, "(Read by ", i) then None
    else
      var p := i + 9;
      var who := if OccursAt(s, "them", p) then "them" else if OccursAt(s, "you", p) then "you" else "";
      if who == "" || !OccursAt(s, " after ", p + |who|) then None
      else
        var d := p + |who| + 7;
        match IndexOf(s, ")", d + 1)
        case None => None
        case Some(j) =>
          assert forall k :: d + 1 <= k < j ==> s[k] != ')' by {
            forall k | d + 1 <= k < j ensures s[k] != ')' { assert !OccursAt(s, ")", k); }
          }
          Some(ReadReceipt(who, s[d..j]))
  }

  /** The read receipt of a timestamp line, kept as a pair rather than as JSON text. */
  function FindReadReceipt(s: string): Option<ReadReceipt>
  {
    Search(s, ReadReceiptAt)
  }

  // ---------------------------------------------------------------------
  // `Sent with (.+)`, tried only when the line contains "Sent with" (database.py:262-266)

  /** `Sent with (.+)` at `i`: the greedy group takes the whole non-empty rest of the line. */
  function ExpressiveAt(s: string, i: nat): (r: Option<string>)
    ensures r.Some? <==> OccursAt(s, "Sent with ", i) && i + 10 < |s|
    ensures r.Some? ==> r.value != [] && OccursAt(s, "Sent with " + r.value, i) && i + 10 + |r.value| == |s|
  {
    if OccursAt(s, "Sent with ", i) && i + 10 < |s| then
      assert s[i..] == s[i..i + 10] + s[i + 10..];
      Some(s[i + 10..])
    else None
  }

  /** The expressive-effect label of a timestamp line. */
  function FindExpressive(s: string): Option<string>
  {
    if Contains(s, "Sent with") then Search(s, ExpressiveAt) else None
  }

  // ---------------------------------------------------------------------
  // `Edited (\d+) (?:second|minute|hour)s? later:\s*(.+)`  (database.py:29-31)

  /** `text` is group 2 (the new text), `stamp` is group 1 (the digits only). */
  datatype Edit = Edit(text: string, stamp: string)

  /** The end of `(?:second|minute|hour)` at `u`, or `u` itself when no unit is there. */
  function UnitEnd(s: string, u: nat): (e: nat)
    ensures e == u || e == u + 4 || e == u + 6
  {
    if OccursAt(s, "second", u) then u + 6
    else if OccursAt(s, "minute", u) then u + 6
    else if OccursAt(s, "hour", u) then u + 4
    else u
  }

  /** `\s*(.+)` from `v` to the end of the line: the text group. */
  function EditTextAt(s: string, v: nat): (r: Option<string>)
    requires v <= |s|
    ensures r.Some? ==> r.value != []
  {
    var w := Span(s, v, IsSpace);
    if w < |s| then Some(s[w..])
    // `\s*` gives back one character so that `.+` can match
    else if w > v then Some(s[w - 1..])
    else None
  }

  /** `(?:second|minute|hour)s? later:\s*(.+)` from `u`: the text group. */
  function EditedTextAt(s: string, u: nat): (r: Option<string>)
    ensures r.Some? ==> r.value != []
  {
    var unitEnd := UnitEnd(s, u);
    if unitEnd == u then None
    else
      var plural := if unitEnd < |s| && s[unitEnd] == 's' then unitEnd + 1 else unitEnd;
      if !OccursAt(s, " later:", plural) then None
      else EditTextAt(s, plural + 7)
  }

  function EditedAt(s: string, i: nat): (r: Option<Edit>)
    ensures r.Some? ==> r.value.text != [] && r.value.stamp != []
    ensures r.Some? ==> forall k :: 0 <= k < |r.value.stamp| ==> IsDigit(r.value.stamp[k])
  {
    if !OccursAt(s, "Edited ", i) then None
    else
      var p := i + 7;
      var d := Span(s, p, IsDigit);
      if d == p || !OccursAt(s, " ", d) then None
      else
        match EditedTextAt(s, d + 1)
        case None => None
        case Some(text) =>
          SpanAll(s, p, IsDigit);
          Some(Edit(text, s[p..d]))
  }

  /** The edit annotation of a line: the edited text and the digit group of its delay. */
  function FindEdited(s: string): Option<Edit>
  {
    Search(s, EditedAt)
  }

  // ---------------------------------------------------------------------
  // `(.+?) unsent a message!`  (database.py:32)

  const UnsentSuffix: string := " unsent a message!"

  /** Lazy `.+?`: the shortest non-empty sender followed by the suffix. */
  function UnsentAt(s: string, i: nat): (r: Option<string>)
    ensures r.Some? ==> r.value != [] && OccursAt(s, r.value + UnsentSuffix, i)
  {
    match IndexOf(s, UnsentSuffix, i + 1)
    case None => None
    case Some(j) =>
      assert s[i..j + |UnsentSuffix|] == s[i..j] + s[j..j + |UnsentSuffix|];
      Some(s[i..j])
  }

  /** The sender captured by the unsent pattern. */
  function FindUnsent(s: string): (r: Option<string>)
    ensures r.Some? ==> r.value != []
  {
    Search(s, UnsentAt)
  }

  /**
   * Leftmost-first means a line is an unsent line exactly when the suffix occurs
   * after at least one character, and the sender is everything before the first
   * such occurrence.
   */
  lemma {:induction false} UnsentIsPrefixBeforeSuffix(s: string)
    ensures FindUnsent(s).Some? <==> IndexOf(s, UnsentSuffix, 1).Some?
    ensures FindUnsent(s).Some? ==> FindUnsent(s).value == s[..IndexOf(s, UnsentSuffix, 1).value]
  {
    var f := SearchFrom(s, 0, UnsentAt);
    if IndexOf(s, UnsentSuffix, 1).Some? {
      assert UnsentAt(s, 0).Some?;
      assert f == Some(Found(0, UnsentAt(s, 0).value));
    } else {
      forall i | 0 <= i <= |s| ensures UnsentAt(s, i).None? {
        assert IndexOf(s, UnsentSuffix, i + 1).None?;
      }
    }
  }

  // ---------------------------------------------------------------------
  // `attachments[/\\]([\d]+)[/\\]([\w\s.-]+\.\w+)` with IGNORECASE  (database.py:33-36)
  // and `attachments[/\\]([\d]+)[/\\]` (database.py:163, case-sensitive)

  const AttachmentsWord: string := "attachments"

  /** Case-insensitive comparison with a lower-case ASCII letter, as `re.IGNORECASE` does it. */
  predicate FoldsTo(c: char, lower: char)
    requires 'a' <= lower <= 'z'
  {
    c == lower || c as int == lower as int - 32 || (lower == 's' && c == '\U{017F}')
  }

  /** The `k`-th letter of "attachments" matches the character at `i + k`. */
  predicate LetterAt(s: string, i: nat, k: nat, ignoreCase: bool)
    requires i + k < |s| && k < 11
  {
    if ignoreCase then FoldsTo(s[i + k], AttachmentsWord[k]) else s[i + k] == AttachmentsWord[k]
  }

  predicate AttachmentsWordAt(s: string, i: nat, ignoreCase: bool)
  {
    && i + 11 <= |s|
    && forall k :: 0 <= k < 11 ==> LetterAt(s, i, k, ignoreCase)
  }

  /** The span of the directory digits of `attachments/<digits>/` starting at `i`. */
  function DirectoryDigitsAt(s: string, i: nat, ignoreCase: bool): (r: Option<(nat, nat)>)
    ensures r.Some? ==> i + 12 == r.value.0 < r.value.1 < |s| && IsSep(s[r.value.1])
    ensures r.Some? ==> forall k :: r.value.0 <= k < r.value.1 ==> IsDigit(s[k])
  {
    if !(AttachmentsWordAt(s, i, ignoreCase) && i + 12 <= |s| && IsSep(s[i + 11])) then None
    else
      var d := Span(s, i + 12, IsDigit);
      if d == i + 12 || d >= |s| || !IsSep(s[d]) then None
      else
        SpanAll(s, i + 12, IsDigit);
        Some((i + 12, d))
  }

  /** A `.` followed by a word character: where `\.\w+` can start. */
  predicate IsExtensionDot(s: string, m: nat)
  {
    m + 1 < |s| && s[m] == '.' && IsWordChar(s[m + 1])
  }

  /** The greedy `[\w\s.-]+` backs off to the LAST dot in `[lo, hi)` that starts an extension. */
  function LastExtensionDot(s: string, lo: nat, hi: nat): (r: Option<nat>)
    requires hi <= |s|
    decreases hi
    ensures r.Some? ==> lo <= r.value < hi && IsExtensionDot(s, r.value)
    ensures forall m :: lo <= m < hi && (r.None? || r.value < m) ==> !IsExtensionDot(s, m)
  {
    if hi <= lo then None
    else if IsExtensionDot(s, hi - 1) then Some(hi - 1)
    else LastExtensionDot(s, lo, hi - 1)
  }

  datatype AttachmentMatch = AttachmentMatch(directory: string, filename: string)

  /** `([\w\s.-]+\.\w+)` at `q`: the file name group. */
  function FileNameAt(s: string, q: nat): (r: Option<string>)
    requires q <= |s|
    ensures r.Some? ==> '/' !in r.value && '.' in r.value
  {
    var e := Span(s, q, IsNameChar);
    match LastExtensionDot(s, q + 1, e)
    case None => None
    case Some(m) =>
      var end := Span(s, m + 1, IsWordChar);
      assert s[q..end][m - q] == '.';
      SpanAll(s, q, IsNameChar);
      SpanAll(s, m + 1, IsWordChar);
      NameHasNoSlash(s, q, e, m, end);
      Some(s[q..end])
  }

  function AttachmentAt(s: string, i: nat): (r: Option<AttachmentMatch>)
    ensures r.Some? ==> r.value.directory != [] && forall k :: 0 <= k < |r.value.directory| ==> IsDigit(r.value.directory[k])
    ensures r.Some? ==> '/' !in r.value.filename && '.' in r.value.filename
  {
    match DirectoryDigitsAt(s, i, true)
    case None => None
    case Some(digits) =>
      match FileNameAt(s, digits.1 + 1)
      case None => None
      case Some(name) => Some(AttachmentMatch(s[digits.0..digits.1], name))
  }

  /** A run of name characters, then word characters after a dot inside it, holds no `/`. */
  lemma NameHasNoSlash(s: string, q: nat, e: nat, m: nat, end: nat)
    requires q <= m < e <= |s| && m < end <= |s|
    requires forall k :: q <= k < e ==> IsNameChar(s[k])
    requires forall k :: m + 1 <= k < end ==> IsWordChar(s[k])
    ensures forall k :: q <= k < end ==> s[k] != '/'
  {
    forall k | q <= k < end ensures s[k] != '/' {
      if k < e {
        assert IsNameChar(s[k]);
      } else {
        assert IsWordChar(s[k]);
      }
    }
  }

  /** The directory number and file name of an attachment reference line. */
  function FindAttachment(s: string): Option<AttachmentMatch>
  {
    Search(s, AttachmentAt)
  }

  function CacheDirectoryAt(s: string, i: nat): Option<string>
  {
    match DirectoryDigitsAt(s, i, false)
    case None => None
    case Some(digits) => Some(s[digits.0..digits.1])
  }

  /** The numbered attachment subdirectory recorded for a scanned file (database.py:163-164). */
  function DirectoryNumberOf(relPath: string): Option<string>
  {
    Search(relPath, CacheDirectoryAt)
  }

  // ---------------------------------------------------------------------
  // Tapbacks (database.py:375-388)

  datatype TapbackKind = Loved | Liked | Disliked | LaughedAt | Emphasized | Questioned

  /** The `tapback_type` text of each kind. */
  function Label(k: TapbackKind): string
  {
    match k
    case Loved => "Loved"
    case Liked => "Liked"
    case Disliked => "Disliked"
    case LaughedAt => "Laughed at"
    case Emphasized => "Emphasized"
    case Questioned => "Questioned"
  }

  /** The alternatives of the pattern, in the order they are tried. */
  const Kinds: seq<TapbackKind> := [Loved, Liked, Disliked, LaughedAt, Emphasized, Questioned]

  datatype Reaction = Reaction(kind: TapbackKind, sender: string, isFromMe: bool)

  /** `re.match('<kind> by (.+)', t)`: the kind's label, " by ", then at least one character. */
  predicate ReactsWith(t: string, k: TapbackKind)
  {
    |t| > |Label(k)| + 4 && t[..|Label(k)| + 4] == Label(k) + " by "
  }

  function MatchKinds(t: string, kinds: seq<TapbackKind>): (r: Option<TapbackKind>)
    ensures r.Some? ==> ReactsWith(t, r.value)
    ensures r.None? ==> forall k :: k in kinds ==> !ReactsWith(t, k)
  {
    if kinds == [] then None
    else if ReactsWith(t, kinds[0]) then Some(kinds[0])
    else MatchKinds(t, kinds[1..])
  }

  /** `_parse_tapback_line`: an anchored match against the six-kind vocabulary. */
  function ParseTapbackLine(line: string): Option<Reaction>
  {
    var t := Strip(line);
    match MatchKinds(t, Kinds)
    case None => None
    case Some(k) =>
      var sender := Strip(t[|Label(k)| + 4..]);
      Some(Reaction(k, sender, sender == "Me"))
  }

  /**
   * A stripped line is a tapback exactly when it starts with some kind's label
   * and " by " and goes on; the sender is the rest, stripped.
   */
  lemma ParseTapbackLineMeaning(line: string)
    ensures ParseTapbackLine(line).Some? <==> exists k :: ReactsWith(Strip(line), k)
    ensures var r := ParseTapbackLine(line);
      r.Some? ==> ReactsWith(Strip(line), r.value.kind) && r.value.sender == Strip(Strip(line)[|Label(r.value.kind)| + 4..])
  {
    if MatchKinds(Strip(line), Kinds).None? {
      NoKindMatches(Strip(line));
    }
  }

  /** The sender of a tapback is never blank, and the reaction is the user's own exactly when it is "Me". */
  lemma TapbackSenderIsNotBlank(line: string)
    ensures var r := ParseTapbackLine(line);
      r.Some? ==> r.value.sender != [] && (r.value.isFromMe <==> r.value.sender == "Me")
  {
    var t := Strip(line);
    var r := ParseTapbackLine(line);
    if r.Some? {
      SenderIsNotBlank(t, r.value.kind);
    }
  }

  /** Every kind is in the vocabulary, so a line no kind of it matches matches no kind. */
  lemma NoKindMatches(t: string)
    requires MatchKinds(t, Kinds).None?
    ensures forall k :: !ReactsWith(t, k)
  {
    forall k: TapbackKind ensures !ReactsWith(t, k) {
      assert k == Kinds[0] || k == Kinds[1] || k == Kinds[2] || k == Kinds[3] || k == Kinds[4] || k == Kinds[5];
    }
  }

  /** After a kind's prefix, a stripped line still holds its last, non-space character. */
  lemma SenderIsNotBlank(t: string, k: TapbackKind)
    requires ReactsWith(t, k)
    requires !IsSpace(t[|t| - 1])
    ensures Strip(t[|Label(k)| + 4..]) != []
  {
    var rest := t[|Label(k)| + 4..];
    assert rest[|rest| - 1] == t[|t| - 1];
    AllSpaceAt(rest);
    StripEmptyIffAllSpace(rest);
  }

  // ---------------------------------------------------------------------
  // MIME types (database.py:390-405)

  const DefaultMime: string := "application/octet-stream"

  const MimeTable: map<string, string> := map[
    ".jpg" := "image/jpeg", ".jpeg" := "image/jpeg", ".png" := "image/png",
    ".gif" := "image/gif", ".bmp" := "image/bmp", ".webp" := "image/webp",
    ".heic" := "image/heic", ".heif" := "image/heif", ".tiff" := "image/tiff",
    ".mp4" := "video/mp4", ".mov" := "video/quicktime", ".avi" := "video/x-msvideo",
    ".mkv" := "video/x-matroska", ".webm" := "video/webm", ".m4v" := "video/mp4",
    ".mp3" := "audio/mpeg", ".wav" := "audio/wav", ".m4a" := "audio/mp4",
    ".aac" := "audio/aac", ".flac" := "audio/flac",
    ".pdf" := "application/pdf", ".doc" := "application/msword",
    ".docx" := "application/vnd.openxmlformats-officedocument.wordprocessingml.document",
    ".txt" := "text/plain", ".rtf" := "application/rtf"
  ]

  /** `s.rfind(c)`: -1 when `c` does not occur. */
  function LastIndexOf(s: string, c: char): (r: int)
    ensures -1 <= r < |s|
    ensures r >= 0 ==> s[r] == c
    ensures forall k :: r < k < |s| ==> s[k] != c
  {
    if s == [] then -1
    else if s[|s| - 1] == c then |s| - 1
    else LastIndexOf(s[..|s| - 1], c)
  }

  /**
   * `os.path.splitext(p)[1]` on POSIX: from the last dot of the last path
   * component, unless that component has only dots before it.
   */
  function Extension(p: string): (ext: string)
    ensures |ext| <= |p|
    ensures ext == [] || (ext[0] == '.' && p == p[..|p| - |ext|] + ext)
    ensures ext != [] ==> '/' !in ext && '.' !in ext[1..]
  {
    var sepIndex := LastIndexOf(p, '/');
    var dotIndex := LastIndexOf(p, '.');
    if dotIndex > sepIndex && exists k :: sepIndex + 1 <= k < dotIndex && p[k] != '.' then
      TailAfterLastDot(p, sepIndex, dotIndex);
      p[dotIndex..]
    else []
  }

  /** What follows the last dot, when it comes after the last separator, holds no other dot and no separator. */
  lemma TailAfterLastDot(p: string, sep: int, dot: int)
    requires sep == LastIndexOf(p, '/') && dot == LastIndexOf(p, '.') && sep < dot
    ensures p[dot..] != [] && p[dot..][0] == '.' && p == p[..dot] + p[dot..]
    ensures '/' !in p[dot..] && '.' !in p[dot..][1..]
  {
    var tail := p[dot..];
    forall k | 0 <= k < |tail| ensures tail[k] != '/' && (k > 0 ==> tail[k] != '.') {
      assert tail[k] == p[dot + k];
    }
    assert forall k :: 0 <= k < |tail[1..]| ==> tail[1..][k] == tail[k + 1];
  }

  /**
   * `str.lower()` as far as the MIME table can tell: ASCII capitals and the
   * Kelvin sign (which lower-cases to `k`) become ASCII lower case; no other
   * character lower-cases into ASCII.
   */
  function LowerChar(c: char): char
  {
    if 'A' <= c <= 'Z' then (c as int + 32) as char
    else if c == '\U{212A}' then 'k'
    else c
  }

  function Lower(s: string): string
  {
    seq(|s|, k requires 0 <= k < |s| => LowerChar(s[k]))
  }

  /** `_guess_mime_type`: the table entry of the lower-cased extension, or the default. */
  function GuessMimeType(filename: string): (r: string)
    ensures r == DefaultMime || r in MimeTable.Values
    ensures Lower(Extension(filename)) in MimeTable ==> r == MimeTable[Lower(Extension(filename))]
    ensures Lower(Extension(filename)) !in MimeTable ==> r == DefaultMime
    ensures Lower(Extension(filename)) in MimeTable <==> r in MimeTable.Values
  {
    var ext := Lower(Extension(filename));
    if ext in MimeTable then MimeTable[ext] else DefaultMime
  }

  // ---------------------------------------------------------------------
  // Indentation (database.py:193-197)

  /** The number of leading space characters; a tab ends the run. */
  function LeadingSpaces(s: string): nat
  {
    if s != [] && s[0] == ' ' then 1 + LeadingSpaces(s[1..]) else 0
  }

  /** `(len(line) - len(line.lstrip(' '))) // 4`. */
  function IndentLevel(line: string): nat
  {
    (|line| - |LStripSpaces(line)|) / 4
  }

  /** The indentation level is the leading-space count floored to a multiple of four. */
  lemma {:induction false} IndentCountsLeadingSpaces(line: string)
    ensures IndentLevel(line) == LeadingSpaces(line) / 4
    ensures LeadingSpaces(line) <= |line|
    ensures forall k :: 0 <= k < LeadingSpaces(line) ==> line[k] == ' '
    ensures LeadingSpaces(line) == |line| || line[LeadingSpaces(line)] != ' '
  {
    if line != [] && line[0] == ' ' {
      IndentCountsLeadingSpaces(line[1..]);
      assert LStripSpaces(line) == LStripSpaces(line[1..]);
    }
  }

  // ---------------------------------------------------------------------
  // Conversation directories (database.py:570-576, 410)

  /** `name[1:].isdigit() and len(name[1:]) >= 10` after `name.startswith('p')`: the target number. */
  function ConversationTarget(name: string): (r: Option<string>)
    ensures r.Some? <==> |name| >= 11 && name[0] == 'p' && forall k :: 1 <= k < |name| ==> IsDigit(name[k])
    ensures r.Some? ==> r.value == "+" + name[1..]
  {
    if |name| >= 1 && name[0] == 'p' then
      var digits := name[1..];
      if |digits| >= 10 && forall k :: 0 <= k < |digits| ==> IsDigit(digits[k]) then Some("+" + digits)
      else None
    else None
  }

  /** `target_number.replace("+", "p") + ".txt"`. */
  function TranscriptFileName(target: string): string
  {
    seq(|target|, k requires 0 <= k < |target| => if target[k] == '+' then 'p' else target[k]) + ".txt"
  }

  /** The transcript looked up for an accepted directory is the directory's own name plus `.txt`. */
  lemma TranscriptNameRoundTrip(name: string)
    requires ConversationTarget(name).Some?
    ensures TranscriptFileName(ConversationTarget(name).value) == name + ".txt"
  {
    var t := ConversationTarget(name).value;
    var renamed := seq(|t|, k requires 0 <= k < |t| => if t[k] == '+' then 'p' else t[k]);
    assert renamed == name by {
      forall k | 0 <= k < |t| ensures renamed[k] == name[k] {
        if k > 0 { assert t[k] == name[k] && IsDigit(name[k]); }
      }
    }
  }

  /** Two accepted directories with the same target number have the same name. */
  lemma ConversationTargetInjective(a: string, b: string)
    requires ConversationTarget(a).Some? && ConversationTarget(a) == ConversationTarget(b)
    ensures a == b
  {
    TranscriptNameRoundTrip(a);
    TranscriptNameRoundTrip(b);
    assert (a + ".txt")[..|a|] == a && (b + ".txt")[..|b|] == b;
  }
}
