/**
 * What the line recognisers of module Recognisers match, stated declaratively:
 * for each pattern of database.py:23-36 and 264, a match at an index is the
 * pattern's text laid out at that index, and conversely such a text is found
 * there with exactly the groups Python's `re` captures.
 */
module RecogniserProperties {
  import opened Basics
  import opened Text
  import opened Recognisers

  /** The end of a run of `p`-characters that is followed by a non-`p` character (or the end). */
  lemma SpanOfRun(s: string, i: nat, n: nat, p: char -> bool)
    requires i + n <= |s|
    requires forall k :: i <= k < i + n ==> p(s[k])
    requires i + n == |s| || !p(s[i + n])
    ensures Span(s, i, p) == i + n
    decreases n
  {
    if n > 0 { SpanOfRun(s, i + 1, n - 1, p); }
  }

  predicate AllDigits(t: string)
  {
    forall k :: 0 <= k < |t| ==> IsDigit(t[k])
  }

  /** The characters of `t` occur in `s` from `i` on. */
  /** A non-empty pattern that occurs at `i` starts with the character there. */
  lemma OccursAtFirst(s: string, t: string, i: nat)
    ensures OccursAt(s, t, i) && t != [] ==> s[i] == t[0]
  {
    if OccursAt(s, t, i) && t != [] {
      assert s[i..i + |t|][0] == t[0];
    }
  }

  lemma OccursAtIndex(s: string, t: string, i: nat)
    requires OccursAt(s, t, i)
    ensures forall k :: 0 <= k < |t| ==> s[i + k] == t[k]
  {
    forall k | 0 <= k < |t| ensures s[i + k] == t[k] {
      assert s[i..i + |t|][k] == t[k];
    }
  }

  /** A run of `p`-characters laid out as `t` and not followed by another one ends after `t`. */
  lemma SpanOver(s: string, t: string, i: nat, p: char -> bool)
    requires OccursAt(s, t, i)
    requires forall k :: 0 <= k < |t| ==> p(t[k])
    requires i + |t| == |s| || !p(s[i + |t|])
    ensures Span(s, i, p) == i + |t|
  {
    OccursAtIndex(s, t, i);
    SpanOfRun(s, i, |t|, p);
  }

  // ---------------------------------------------------------------------
  // `\(Read by (them|you) after (.+?)\)`  (database.py:26-28)

  /** "(Read by <who> after <duration>)" laid out from `i`, piece by piece. */
  predicate ReceiptAt(s: string, i: nat, who: string, duration: string)
  {
    var d := i + 16 + |who|;
    && OccursAt(s, "(Read by ", i) && OccursAt(s, who, i + 9) && OccursAt(s, " after ", i + 9 + |who|)
    && OccursAt(s, duration, d) && OccursAt(s, ")", d + |duration|)
  }

  /** The receipt text "(Read by <who> after <duration>)". */
  function ReceiptText(who: string, duration: string): string
  {
    "(Read by " + who + " after " + duration + ")"
  }

  /** Laid out piece by piece is the same as the whole receipt text occurring at `i`. */
  lemma ReceiptPieces(s: string, i: nat, who: string, duration: string)
    ensures OccursAt(s, ReceiptText(who, duration), i) <==> ReceiptAt(s, i, who, duration)
  {
    OccursAtConcat(s, "(Read by " + who + " after " + duration, ")", i);
    OccursAtConcat(s, "(Read by " + who + " after ", duration, i);
    OccursAtConcat(s, "(Read by " + who, " after ", i);
    OccursAtConcat(s, "(Read by ", who, i);
  }

  /**
   * The layout the receipt pattern matches at `i`: `who` is one of the two
   * alternatives, and the lazy duration is non-empty and stops at the first
   * `)` after its first character.
   */
  predicate ReceiptLayout(s: string, i: nat, who: string, duration: string)
  {
    && (who == "them" || who == "you")
    && duration != [] && ')' !in duration[1..]
    && ReceiptAt(s, i, who, duration)
  }

  /** A read receipt is found at `i` with groups `who` and `duration` exactly when that layout is there. */
  lemma ReadReceiptAtMeaning(s: string, i: nat, who: string, duration: string)
    ensures ReadReceiptAt(s, i) == Some(ReadReceipt(who, duration)) <==> ReceiptLayout(s, i, who, duration)
  {
    if ReadReceiptAt(s, i) == Some(ReadReceipt(who, duration)) {
      ReadReceiptAtSound(s, i, who, duration);
    }
    if ReceiptLayout(s, i, who, duration) {
      ReadReceiptAtComplete(s, i, who, duration);
    }
  }

  lemma ReadReceiptAtSound(s: string, i: nat, who: string, duration: string)
    requires ReadReceiptAt(s, i) == Some(ReadReceipt(who, duration))
    ensures ReceiptLayout(s, i, who, duration)
  {
    var d := i + 16 + |who|;
    var j := IndexOf(s, ")", d + 1).value;
    assert duration == s[d..j];
  }

  lemma ReadReceiptAtComplete(s: string, i: nat, who: string, duration: string)
    requires ReceiptLayout(s, i, who, duration)
    ensures ReadReceiptAt(s, i) == Some(ReadReceipt(who, duration))
  {
    ReceiptWho(s, i + 9, who);
    ReceiptClose(s, i + 16 + |who|, duration);
  }

  /** The alternation `(them|you)` picks `who` when `who` is there. */
  lemma ReceiptWho(s: string, p: nat, who: string)
    requires (who == "them" || who == "you") && OccursAt(s, who, p)
    ensures (if OccursAt(s, "them", p) then "them" else if OccursAt(s, "you", p) then "you" else "") == who
  {
    if who == "you" {
      OccursAtFirst(s, "you", p);
      OccursAtFirst(s, "them", p);
    }
  }

  /** The lazy `(.+?)\)` stops at the `)` after a duration that holds no `)` past its first character. */
  lemma ReceiptClose(s: string, d: nat, duration: string)
    requires duration != [] && ')' !in duration[1..]
    requires OccursAt(s, duration, d) && OccursAt(s, ")", d + |duration|)
    ensures IndexOf(s, ")", d + 1) == Some(d + |duration|) && s[d..d + |duration|] == duration
  {
    var j := d + |duration|;
    forall k | d + 1 <= k < j ensures !OccursAt(s, ")", k) {
      assert s[k] == s[d..j][k - d] == duration[1..][k - d - 1];
      assert s[k..k + 1][0] == s[k];
    }
    var r := IndexOf(s, ")", d + 1);
    assert r.Some? && r.value <= j;
  }

  // ---------------------------------------------------------------------
  // `Edited (\d+) (?:second|minute|hour)s? later:\s*(.+)`  (database.py:29-31)

  /**
   * What `\s*(.+)` takes from `v` to the end of the line: the spaces `gap`,
   * then a non-empty `text`. `\s*` is greedy, so the text starts with a
   * non-space unless it is the one space `\s*` gives back.
   */
  predicate TextLayout(s: string, v: nat, gap: string, text: string)
  {
    && AllSpace(gap)
    && text != [] && (!IsSpace(text[0]) || |text| == 1)
    && v + |gap| + |text| == |s|
    && OccursAt(s, gap, v) && OccursAt(s, text, v + |gap|)
  }

  /** A text found after `v` is laid out as spaces and the line's tail. */
  lemma EditTextAtSound(s: string, v: nat) returns (gap: string)
    requires v <= |s|
    ensures EditTextAt(s, v).Some? ==> TextLayout(s, v, gap, EditTextAt(s, v).value)
  {
    var w := Span(s, v, IsSpace);
    SpanAll(s, v, IsSpace);
    var g := if w < |s| then w else w - 1;
    gap := if EditTextAt(s, v).Some? then s[v..g] else [];
    if EditTextAt(s, v).Some? {
      AllSpaceAt(gap);
      assert forall k :: 0 <= k < |gap| ==> gap[k] == s[v + k];
    }
  }

  /** Conversely, spaces followed by such a text are found with exactly that text. */
  lemma EditTextAtComplete(s: string, v: nat, gap: string, text: string)
    requires TextLayout(s, v, gap, text)
    ensures EditTextAt(s, v) == Some(text)
  {
    var w := v + |gap|;
    assert s[w..] == s[w..w + |text|] == text;
    assert s[w] == text[0];
    forall k | v <= k < w ensures IsSpace(s[k]) {
      AllSpaceAt(gap);
      assert s[k] == s[v..w][k - v] == gap[k - v];
    }
    if IsSpace(text[0]) {
      SpanOfRun(s, v, |gap| + 1, IsSpace);
    } else {
      SpanOfRun(s, v, |gap|, IsSpace);
    }
  }

  predicate IsUnit(unit: string)
  {
    unit == "second" || unit == "minute" || unit == "hour"
  }

  /** The unit alternation ends after `unit` exactly when `unit` is there. */
  lemma UnitEndMeaning(s: string, u: nat, unit: string)
    requires IsUnit(unit)
    ensures OccursAt(s, unit, u) ==> UnitEnd(s, u) == u + |unit|
  {
    if OccursAt(s, unit, u) {
      OccursAtIndex(s, unit, u);
      assert OccursAt(s, "second", u) ==> s[u] == s[u..u + 6][0] == 's';
      assert OccursAt(s, "minute", u) ==> s[u] == s[u..u + 6][0] == 'm';
    }
  }

  /**
   * What `(?:second|minute|hour)s? later:\s*(.+)` matches from `u`: a time
   * unit, an optional plural `s`, " later:", then the spaces and the text.
   */
  predicate UnitLayout(s: string, u: nat, unit: string, plural: string, gap: string, text: string)
  {
    && IsUnit(unit) && (plural == "" || plural == "s")
    && OccursAt(s, unit, u) && OccursAt(s, plural, u + |unit|) && OccursAt(s, " later:", u + |unit| + |plural|)
    && TextLayout(s, u + |unit| + |plural| + 7, gap, text)
  }

  lemma EditedTextAtSound(s: string, u: nat, text: string) returns (unit: string, plural: string, gap: string)
    requires EditedTextAt(s, u) == Some(text)
    ensures UnitLayout(s, u, unit, plural, gap, text)
  {
    var unitEnd := UnitEnd(s, u);
    var pl := if unitEnd < |s| && s[unitEnd] == 's' then unitEnd + 1 else unitEnd;
    unit, plural := s[u..unitEnd], s[unitEnd..pl];
    assert IsUnit(unit);
    gap := EditTextAtSound(s, pl + 7);
  }

  lemma EditedTextAtComplete(s: string, u: nat, unit: string, plural: string, gap: string, text: string)
    requires UnitLayout(s, u, unit, plural, gap, text)
    ensures EditedTextAt(s, u) == Some(text)
  {
    var unitEnd := u + |unit|;
    assert UnitEnd(s, u) == unitEnd by { UnitEndMeaning(s, u, unit); }
    assert (if unitEnd < |s| && s[unitEnd] == 's' then unitEnd + 1 else unitEnd) == unitEnd + |plural| by {
      if plural == "s" {
        assert s[unitEnd] == s[unitEnd..unitEnd + 1][0] == 's';
      } else {
        assert s[unitEnd] == s[unitEnd..unitEnd + 7][0] == ' ';
      }
    }
    EditTextAtComplete(s, unitEnd + |plural| + 7, gap, text);
  }

  /**
   * The layout the edited pattern matches at `i`: "Edited ", a digit run,
   * one space, then the unit, the plural, the spaces and the text.
   */
  predicate EditedLayout(s: string, i: nat, stamp: string, unit: string, plural: string, gap: string, text: string)
  {
    && stamp != [] && AllDigits(stamp)
    && OccursAt(s, "Edited ", i) && OccursAt(s, stamp, i + 7) && OccursAt(s, " ", i + 7 + |stamp|)
    && UnitLayout(s, i + 8 + |stamp|, unit, plural, gap, text)
  }

  /** An edit found at `i` has the layout, with its stamp as the digits and its text as the line's tail. */
  lemma EditedAtSound(s: string, i: nat, e: Edit) returns (unit: string, plural: string, gap: string)
    requires EditedAt(s, i) == Some(e)
    ensures EditedLayout(s, i, e.stamp, unit, plural, gap, e.text)
  {
    var u := EditedAtHead(s, i, e);
    unit, plural, gap := EditedTextAtSound(s, u, e.text);
    EditedLayoutOf(s, i, e.stamp, u, unit, plural, gap, e.text);
  }

  /** The head of an edit and the unit layout right after it make the edit layout. */
  lemma EditedLayoutOf(s: string, i: nat, stamp: string, u: nat, unit: string, plural: string, gap: string, text: string)
    requires stamp != [] && AllDigits(stamp)
    requires OccursAt(s, "Edited ", i) && OccursAt(s, stamp, i + 7) && OccursAt(s, " ", i + 7 + |stamp|)
    requires u == i + 8 + |stamp| && UnitLayout(s, u, unit, plural, gap, text)
    ensures EditedLayout(s, i, stamp, unit, plural, gap, text)
  {
  }

  /** The head of a found edit: its digits, one space, and the rest found after them. */
  lemma EditedAtHead(s: string, i: nat, e: Edit) returns (u: nat)
    requires EditedAt(s, i) == Some(e)
    ensures OccursAt(s, "Edited ", i) && OccursAt(s, e.stamp, i + 7) && OccursAt(s, " ", i + 7 + |e.stamp|)
    ensures AllDigits(e.stamp) && u == i + 8 + |e.stamp| && EditedTextAt(s, u) == Some(e.text)
  {
    u := i + 8 + |e.stamp|;
  }

  /** Conversely, the layout at `i` is found there with exactly its stamp and text. */
  lemma EditedAtComplete(s: string, i: nat, stamp: string, unit: string, plural: string, gap: string, text: string)
    requires EditedLayout(s, i, stamp, unit, plural, gap, text)
    ensures EditedAt(s, i) == Some(Edit(text, stamp))
  {
    EditedTextAtComplete(s, i + 8 + |stamp|, unit, plural, gap, text);
    EditedAtOfHead(s, i, stamp, text);
  }

  /** Digits and one space after "Edited ", followed by a found rest, are found as an edit. */
  lemma EditedAtOfHead(s: string, i: nat, stamp: string, text: string)
    requires stamp != [] && AllDigits(stamp)
    requires OccursAt(s, "Edited ", i) && OccursAt(s, stamp, i + 7) && OccursAt(s, " ", i + 7 + |stamp|)
    requires EditedTextAt(s, i + 8 + |stamp|) == Some(text)
    ensures EditedAt(s, i) == Some(Edit(text, stamp))
  {
    var p := i + 7;
    var d := p + |stamp|;
    assert Span(s, p, IsDigit) == d by {
      assert s[d] == s[d..d + 1][0] == ' ';
      SpanOver(s, stamp, p, IsDigit);
    }
  }

  // ---------------------------------------------------------------------
  // `(\w+ \d{1,2}, \d{4}\s+\d{1,2}:\d{2}:\d{2}\s+(?:AM|PM))`  (database.py:23-25)

  predicate AllWordChars(t: string)
  {
    forall k :: 0 <= k < |t| ==> IsWordChar(t[k])
  }

  /** "<month> <day>, <year>", the part `\w+ \d{1,2}, \d{4}` matches. */
  function DateText(month: string, day: string, year: string): string
  {
    month + " " + day + ", " + year
  }

  predicate WellFormedDate(month: string, day: string, year: string)
  {
    && month != [] && AllWordChars(month)
    && 1 <= |day| <= 2 && AllDigits(day)
    && |year| == 4 && AllDigits(year)
  }

  predicate DatePiecesAt(s: string, i: nat, month: string, day: string, year: string)
  {
    && OccursAt(s, month, i) && OccursAt(s, " ", i + |month|) && OccursAt(s, day, i + |month| + 1)
    && OccursAt(s, ", ", i + |month| + 1 + |day|) && OccursAt(s, year, i + |month| + |day| + 3)
  }

  lemma DatePieces(s: string, i: nat, month: string, day: string, year: string)
    ensures OccursAt(s, DateText(month, day, year), i) <==> DatePiecesAt(s, i, month, day, year)
  {
    OccursAtConcat(s, month + " " + day + ", ", year, i);
    OccursAtConcat(s, month + " " + day, ", ", i);
    OccursAtConcat(s, month + " ", day, i);
    OccursAtConcat(s, month, " ", i);
  }

  /** A date ending at `y` is a well-formed date text from `i` to `y`. */
  lemma DateEndSound(s: string, i: nat, y: nat) returns (month: string, day: string, year: string)
    requires DateEnd(s, i) == Some(y)
    ensures WellFormedDate(month, day, year) && OccursAt(s, DateText(month, day, year), i)
    ensures y == i + |DateText(month, day, year)|
  {
    var w := Span(s, i, IsWordChar);
    var d := Span(s, w + 1, IsDigit);
    SpanAll(s, i, IsWordChar);
    SpanAll(s, w + 1, IsDigit);
    month, day, year := s[i..w], s[w + 1..d], s[d + 2..d + 6];
    assert AllDigits(year) by {
      forall k | 0 <= k < 4 ensures IsDigit(year[k]) { assert year[k] == s[d + 2 + k]; }
    }
    assert DatePiecesAt(s, i, month, day, year) by {
      assert s[w..w + 1] == [s[w]] == " ";
      assert s[d..d + 2] == [s[d], s[d + 1]] == ", ";
    }
    DatePieces(s, i, month, day, year);
  }

  /** Conversely, a well-formed date text at `i` is found there, ending after the year. */
  lemma DateEndComplete(s: string, i: nat, month: string, day: string, year: string)
    requires WellFormedDate(month, day, year) && OccursAt(s, DateText(month, day, year), i)
    ensures DateEnd(s, i) == Some(i + |DateText(month, day, year)|)
  {
    DatePieces(s, i, month, day, year);
    var w := i + |month|;
    var d := w + 1 + |day|;
    assert s[w] == s[w..w + 1][0] == ' ';
    assert s[d] == s[d..d + 2][0] == ',' && s[d + 1] == s[d..d + 2][1] == ' ';
    assert Span(s, i, IsWordChar) == w by { SpanOver(s, month, i, IsWordChar); }
    assert Span(s, w + 1, IsDigit) == d by { SpanOver(s, day, w + 1, IsDigit); }
    forall k | d + 2 <= k < d + 6 ensures IsDigit(s[k]) {
      assert s[k] == s[d + 2..d + 6][k - d - 2] == year[k - d - 2];
    }
    DateEndOf(s, i, w, d);
  }

  /** The date ends four digits after the ", " that follows the day's digit run. */
  lemma DateEndOf(s: string, i: nat, w: nat, d: nat)
    requires i < |s| && w == Span(s, i, IsWordChar) && i < w < |s| && s[w] == ' '
    requires d == Span(s, w + 1, IsDigit) && 1 <= d - (w + 1) <= 2 && d + 6 <= |s| && s[d] == ',' && s[d + 1] == ' '
    requires forall k :: d + 2 <= k < d + 6 ==> IsDigit(s[k])
    ensures DateEnd(s, i) == Some(d + 6)
  {
  }

  /** "<hour>:<minute>:<second>", the part `\d{1,2}:\d{2}:\d{2}` matches. */
  function ClockText(hour: string, minute: string, second: string): string
  {
    hour + ":" + minute + ":" + second
  }

  predicate WellFormedClock(hour: string, minute: string, second: string)
  {
    && 1 <= |hour| <= 2 && AllDigits(hour)
    && |minute| == 2 && AllDigits(minute)
    && |second| == 2 && AllDigits(second)
  }

  predicate ClockPiecesAt(s: string, j: nat, hour: string, minute: string, second: string)
  {
    && OccursAt(s, hour, j) && OccursAt(s, ":", j + |hour|) && OccursAt(s, minute, j + |hour| + 1)
    && OccursAt(s, ":", j + |hour| + 1 + |minute|) && OccursAt(s, second, j + |hour| + |minute| + 2)
  }

  lemma ClockPieces(s: string, j: nat, hour: string, minute: string, second: string)
    ensures OccursAt(s, ClockText(hour, minute, second), j) <==> ClockPiecesAt(s, j, hour, minute, second)
  {
    OccursAtConcat(s, hour + ":" + minute + ":", second, j);
    OccursAtConcat(s, hour + ":" + minute, ":", j);
    OccursAtConcat(s, hour + ":", minute, j);
    OccursAtConcat(s, hour, ":", j);
  }

  /** A clock ending at `c` is a well-formed clock text from `j` to `c`. */
  lemma ClockEndSound(s: string, j: nat, c: nat) returns (hour: string, minute: string, second: string)
    requires j <= |s| && ClockEnd(s, j) == Some(c)
    ensures WellFormedClock(hour, minute, second) && OccursAt(s, ClockText(hour, minute, second), j)
    ensures c == j + |ClockText(hour, minute, second)|
  {
    var h := Span(s, j, IsDigit);
    SpanAll(s, j, IsDigit);
    hour, minute, second := s[j..h], s[h + 1..h + 3], s[h + 4..h + 6];
    assert ClockPiecesAt(s, j, hour, minute, second) by {
      assert s[h..h + 1] == [s[h]] == ":";
      assert s[h + 3..h + 4] == [s[h + 3]] == ":";
    }
    ClockPieces(s, j, hour, minute, second);
  }

  /** Conversely, a well-formed clock text at `j` is found there, ending after the seconds. */
  lemma ClockEndComplete(s: string, j: nat, hour: string, minute: string, second: string)
    requires WellFormedClock(hour, minute, second) && OccursAt(s, ClockText(hour, minute, second), j)
    ensures ClockEnd(s, j) == Some(j + |ClockText(hour, minute, second)|)
  {
    ClockPieces(s, j, hour, minute, second);
    var h := j + |hour|;
    assert s[h] == s[h..h + 1][0] == ':' && s[h + 3] == s[h + 3..h + 4][0] == ':';
    assert Span(s, j, IsDigit) == h by { SpanOver(s, hour, j, IsDigit); }
    assert s[h + 1] == minute[0] && s[h + 2] == minute[1] by { OccursAtIndex(s, minute, h + 1); }
    assert s[h + 4] == second[0] && s[h + 5] == second[1] by { OccursAtIndex(s, second, h + 4); }
  }

  /** The pieces of a timestamp: "<date><gap1><clock><gap2><AM|PM>". */
  datatype Stamp = Stamp(
    month: string, day: string, year: string, gap1: string,
    hour: string, minute: string, second: string, gap2: string, meridiem: string)

  predicate WellFormedStamp(t: Stamp)
  {
    && WellFormedDate(t.month, t.day, t.year)
    && t.gap1 != [] && AllSpace(t.gap1)
    && WellFormedClock(t.hour, t.minute, t.second)
    && t.gap2 != [] && AllSpace(t.gap2)
    && (t.meridiem == "AM" || t.meridiem == "PM")
  }

  function StampText(t: Stamp): string
  {
    DateText(t.month, t.day, t.year) + t.gap1 + ClockText(t.hour, t.minute, t.second) + t.gap2 + t.meridiem
  }

  predicate StampPiecesAt(s: string, i: nat, t: Stamp)
  {
    var y := i + |DateText(t.month, t.day, t.year)|;
    var c := y + |t.gap1| + |ClockText(t.hour, t.minute, t.second)|;
    && OccursAt(s, DateText(t.month, t.day, t.year), i) && OccursAt(s, t.gap1, y)
    && OccursAt(s, ClockText(t.hour, t.minute, t.second), y + |t.gap1|)
    && OccursAt(s, t.gap2, c) && OccursAt(s, t.meridiem, c + |t.gap2|)
  }

  lemma StampPieces(s: string, i: nat, t: Stamp)
    ensures OccursAt(s, StampText(t), i) <==> StampPiecesAt(s, i, t)
  {
    var date, clock := DateText(t.month, t.day, t.year), ClockText(t.hour, t.minute, t.second);
    OccursAtConcat(s, date + t.gap1 + clock + t.gap2, t.meridiem, i);
    OccursAtConcat(s, date + t.gap1 + clock, t.gap2, i);
    OccursAtConcat(s, date + t.gap1, clock, i);
    OccursAtConcat(s, date, t.gap1, i);
  }

  /** A run of spaces laid out as `gap` and followed by a text that starts with a non-space ends after `gap`. */
  lemma SpacesBefore(s: string, v: nat, gap: string, next: string)
    requires AllSpace(gap) && OccursAt(s, gap, v)
    requires next != [] && !IsSpace(next[0]) && OccursAt(s, next, v + |gap|)
    ensures Span(s, v, IsSpace) == v + |gap|
  {
    assert s[v + |gap|] == s[v + |gap|..v + |gap| + |next|][0];
    AllSpaceAt(gap);
    SpanOver(s, gap, v, IsSpace);
  }

  /** The spaces of a run from `v` to `w`. */
  lemma SpacesOfRun(s: string, v: nat, w: nat)
    requires v <= w <= |s| && forall k :: v <= k < w ==> IsSpace(s[k])
    ensures AllSpace(s[v..w])
  {
    AllSpaceAt(s[v..w]);
    assert forall k :: 0 <= k < w - v ==> s[v..w][k] == s[v + k];
  }

  /** `\s+(?:AM|PM)` found at `c` is a non-empty run of spaces and the meridiem. */
  lemma MeridiemEndSound(s: string, c: nat, e: nat) returns (gap: string, meridiem: string)
    requires c <= |s| && MeridiemEnd(s, c) == Some(e)
    ensures gap != [] && AllSpace(gap) && (meridiem == "AM" || meridiem == "PM")
    ensures OccursAt(s, gap, c) && OccursAt(s, meridiem, c + |gap|) && e == c + |gap| + 2
  {
    var g := Span(s, c, IsSpace);
    SpanAll(s, c, IsSpace);
    SpacesOfRun(s, c, g);
    gap, meridiem := s[c..g], s[g..g + 2];
  }

  lemma MeridiemEndComplete(s: string, c: nat, gap: string, meridiem: string)
    requires gap != [] && AllSpace(gap) && (meridiem == "AM" || meridiem == "PM")
    requires OccursAt(s, gap, c) && OccursAt(s, meridiem, c + |gap|)
    ensures MeridiemEnd(s, c) == Some(c + |gap| + 2)
  {
    SpacesBefore(s, c, gap, meridiem);
  }

  /** The part of a timestamp after its date: spaces, a clock, spaces, AM or PM. */
  predicate TimeLayout(s: string, y: nat, t: Stamp)
  {
    var clock := ClockText(t.hour, t.minute, t.second);
    var c := y + |t.gap1| + |clock|;
    && t.gap1 != [] && AllSpace(t.gap1) && WellFormedClock(t.hour, t.minute, t.second)
    && t.gap2 != [] && AllSpace(t.gap2) && (t.meridiem == "AM" || t.meridiem == "PM")
    && OccursAt(s, t.gap1, y) && OccursAt(s, clock, y + |t.gap1|)
    && OccursAt(s, t.gap2, c) && OccursAt(s, t.meridiem, c + |t.gap2|)
  }

  lemma TimeEndSound(s: string, y: nat, e: nat, date: (string, string, string)) returns (t: Stamp)
    requires y <= |s| && TimeEnd(s, y) == Some(e)
    ensures (t.month, t.day, t.year) == date
    ensures TimeLayout(s, y, t)
    ensures e == y + |t.gap1| + |ClockText(t.hour, t.minute, t.second)| + |t.gap2| + 2
  {
    var g := Span(s, y, IsSpace);
    var c := ClockEnd(s, g).value;
    SpanAll(s, y, IsSpace);
    SpacesOfRun(s, y, g);
    var hour, minute, second := ClockEndSound(s, g, c);
    var gap2, meridiem := MeridiemEndSound(s, c, e);
    t := Stamp(date.0, date.1, date.2, s[y..g], hour, minute, second, gap2, meridiem);
  }

  lemma TimeEndComplete(s: string, y: nat, t: Stamp)
    requires y <= |s| && TimeLayout(s, y, t)
    ensures TimeEnd(s, y) == Some(y + |t.gap1| + |ClockText(t.hour, t.minute, t.second)| + |t.gap2| + 2)
  {
    var clock := ClockText(t.hour, t.minute, t.second);
    var g := y + |t.gap1|;
    var c := g + |clock|;
    TimeGapComplete(s, y, t);
    ClockEndComplete(s, g, t.hour, t.minute, t.second);
    MeridiemEndComplete(s, c, t.gap2, t.meridiem);
    TimeEndOf(s, y, g, c, c + |t.gap2| + 2);
  }

  /** The spaces before the clock are exactly the timestamp's first gap. */
  lemma TimeGapComplete(s: string, y: nat, t: Stamp)
    requires y <= |s| && TimeLayout(s, y, t)
    ensures y < y + |t.gap1| == Span(s, y, IsSpace)
  {
    var clock := ClockText(t.hour, t.minute, t.second);
    assert clock[0] == t.hour[0];
    SpacesBefore(s, y, t.gap1, clock);
  }

  /** The time part ends where its meridiem ends, once its gap and clock are found. */
  lemma TimeEndOf(s: string, y: nat, g: nat, c: nat, e: nat)
    requires y <= |s| && y < g == Span(s, y, IsSpace) && ClockEnd(s, g) == Some(c)
    requires c <= |s| && MeridiemEnd(s, c) == Some(e)
    ensures TimeEnd(s, y) == Some(e)
  {
  }

  /** A timestamp found at `i` is a well-formed timestamp text. */
  lemma TimestampAtSound(s: string, i: nat, r: string) returns (t: Stamp)
    requires TimestampAt(s, i) == Some(r)
    ensures WellFormedStamp(t) && r == StampText(t)
  {
    var y, e := TimestampEnds(s, i, r);
    var month, day, year := DateEndSound(s, i, y);
    t := TimeEndSound(s, y, e, (month, day, year));
    assert StampPiecesAt(s, i, t);
    StampPieces(s, i, t);
  }

  /** A found timestamp runs from `i` to where its time part ends, past where its date ends. */
  lemma TimestampEnds(s: string, i: nat, r: string) returns (y: nat, e: nat)
    requires TimestampAt(s, i) == Some(r)
    ensures DateEnd(s, i) == Some(y) && y <= |s| && TimeEnd(s, y) == Some(e) && i <= e <= |s| && r == s[i..e]
  {
    y := DateEnd(s, i).value;
    e := TimeEnd(s, y).value;
  }

  /** The pieces of a well-formed timestamp after its date lie as the time layout demands. */
  lemma TimeLayoutOfStamp(s: string, i: nat, t: Stamp)
    requires WellFormedStamp(t) && StampPiecesAt(s, i, t)
    ensures TimeLayout(s, i + |DateText(t.month, t.day, t.year)|, t)
    ensures |StampText(t)| == |DateText(t.month, t.day, t.year)| + |t.gap1| + |ClockText(t.hour, t.minute, t.second)| + |t.gap2| + 2
  {
  }

  /** Conversely, a well-formed timestamp text at `i` is found there, whole. */
  lemma TimestampAtComplete(s: string, i: nat, t: Stamp)
    requires WellFormedStamp(t) && OccursAt(s, StampText(t), i)
    ensures TimestampAt(s, i) == Some(StampText(t))
  {
    var y, e := StampEnds(s, i, t);
    TimestampEndOf(s, i, y, e);
    FoundText(s, i, e, StampText(t));
  }

  /** The date of a timestamp text ends at `y`, and its time part ends with the text. */
  lemma StampEnds(s: string, i: nat, t: Stamp) returns (y: nat, e: nat)
    requires WellFormedStamp(t) && OccursAt(s, StampText(t), i)
    ensures DateEnd(s, i) == Some(y) && y <= |s| && TimeEnd(s, y) == Some(e) && e == i + |StampText(t)|
  {
    StampPieces(s, i, t);
    TimeLayoutOfStamp(s, i, t);
    y := i + |DateText(t.month, t.day, t.year)|;
    DateEndComplete(s, i, t.month, t.day, t.year);
    TimeEndComplete(s, y, t);
    e := y + |t.gap1| + |ClockText(t.hour, t.minute, t.second)| + |t.gap2| + 2;
  }

  lemma TimestampEndOf(s: string, i: nat, y: nat, e: nat)
    requires DateEnd(s, i) == Some(y) && y <= |s| && TimeEnd(s, y) == Some(e)
    ensures TimestampEnd(s, i) == Some(e)
  {
  }

  /** A timestamp ending at `e` is the text from `i` to `e`, whatever text occurs there. */
  lemma FoundText(s: string, i: nat, e: nat, text: string)
    requires TimestampEnd(s, i) == Some(e) && OccursAt(s, text, i) && e == i + |text|
    ensures TimestampAt(s, i) == Some(text)
  {
  }

  // ---------------------------------------------------------------------
  // `attachments[/\\]([\d]+)[/\\]([\w\s.-]+\.\w+)` with IGNORECASE  (database.py:33-36)

  /**
   * The directory part at `i`: "attachments" (in any case when `ignoreCase`),
   * a separator, the digits `dir`, and another separator.
   */
  predicate DirectoryLayout(s: string, i: nat, dir: string, ignoreCase: bool)
  {
    && AttachmentsWordAt(s, i, ignoreCase) && i + 11 < |s| && IsSep(s[i + 11])
    && dir != [] && AllDigits(dir) && OccursAt(s, dir, i + 12)
    && i + 12 + |dir| < |s| && IsSep(s[i + 12 + |dir|])
  }

  lemma DirectoryDigitsAtSound(s: string, i: nat, ignoreCase: bool, d: (nat, nat), dir: string)
    requires DirectoryDigitsAt(s, i, ignoreCase) == Some(d) && dir == s[d.0..d.1]
    ensures DirectoryLayout(s, i, dir, ignoreCase) && d.1 == i + 12 + |dir|
  {
  }

  lemma DirectoryDigitsAtComplete(s: string, i: nat, dir: string, ignoreCase: bool)
    requires DirectoryLayout(s, i, dir, ignoreCase)
    ensures DirectoryDigitsAt(s, i, ignoreCase) == Some((i + 12, i + 12 + |dir|))
  {
    SpanOver(s, dir, i + 12, IsDigit);
  }

  predicate AllNameChars(t: string)
  {
    forall k :: 0 <= k < |t| ==> IsNameChar(t[k])
  }

  /**
   * The file name part at `q`: a non-empty stem of name characters, a dot, and
   * a non-empty run of word characters that `\w+` takes whole. The greedy
   * `[\w\s.-]+` backs off only as far as it must, so no dot followed by a word
   * character lies after the chosen one within the run of name characters.
   */
  predicate FileNameLayout(s: string, q: nat, stem: string, ext: string)
  {
    var m := q + |stem|;
    && stem != [] && AllNameChars(stem) && ext != [] && AllWordChars(ext)
    && OccursAt(s, stem, q) && OccursAt(s, ".", m) && OccursAt(s, ext, m + 1)
    && (m + 1 + |ext| == |s| || !IsWordChar(s[m + 1 + |ext|]))
    && forall n :: m < n < Span(s, q, IsNameChar) ==> !IsExtensionDot(s, n)
  }

  /** A run of `p`-characters of length `n` from `i` is covered by `Span`. */
  lemma SpanAtLeast(s: string, i: nat, n: nat, p: char -> bool)
    requires i + n <= |s| && forall k :: i <= k < i + n ==> p(s[k])
    ensures Span(s, i, p) >= i + n
    decreases n
  {
    if n > 0 {
      assert p(s[i]);
      SpanAtLeast(s, i + 1, n - 1, p);
    }
  }

  /** An extension dot with none after it below `hi` is the last one. */
  lemma LastExtensionDotIs(s: string, lo: nat, hi: nat, m: nat)
    requires hi <= |s| && lo <= m < hi && IsExtensionDot(s, m)
    requires forall n :: m < n < hi ==> !IsExtensionDot(s, n)
    ensures LastExtensionDot(s, lo, hi) == Some(m)
  {
    var r := LastExtensionDot(s, lo, hi);
    assert r.Some?;
    assert !(r.value < m);
  }

  lemma FileNameAtSound(s: string, q: nat, name: string) returns (stem: string, ext: string)
    requires q <= |s| && FileNameAt(s, q) == Some(name)
    ensures FileNameLayout(s, q, stem, ext) && name == stem + "." + ext
  {
    var m, end := FileNameBounds(s, q, name);
    stem, ext := s[q..m], s[m + 1..end];
    FileNameLayoutOf(s, q, m, end);
  }

  /** Where the dot and the end of a found file name lie. */
  lemma FileNameBounds(s: string, q: nat, name: string) returns (m: nat, end: nat)
    requires q <= |s| && FileNameAt(s, q) == Some(name)
    ensures LastExtensionDot(s, q + 1, Span(s, q, IsNameChar)) == Some(m)
    ensures end == Span(s, m + 1, IsWordChar) && name == s[q..end]
  {
    m := LastExtensionDot(s, q + 1, Span(s, q, IsNameChar)).value;
    end := Span(s, m + 1, IsWordChar);
  }

  /** The dot the greedy name run backs off to, and the word run after it, make a file name layout. */
  lemma FileNameLayoutOf(s: string, q: nat, m: nat, end: nat)
    requires q <= |s| && LastExtensionDot(s, q + 1, Span(s, q, IsNameChar)) == Some(m)
    requires end == Span(s, m + 1, IsWordChar)
    ensures q < m < m + 1 < end <= |s|
    ensures FileNameLayout(s, q, s[q..m], s[m + 1..end]) && s[q..end] == s[q..m] + "." + s[m + 1..end]
  {
    var stem, ext := s[q..m], s[m + 1..end];
    SpanAll(s, q, IsNameChar);
    SpanAll(s, m + 1, IsWordChar);
    assert AllNameChars(stem) by {
      forall k | 0 <= k < |stem| ensures IsNameChar(stem[k]) { assert stem[k] == s[q + k]; }
    }
    assert AllWordChars(ext) by {
      forall k | 0 <= k < |ext| ensures IsWordChar(ext[k]) { assert ext[k] == s[m + 1 + k]; }
    }
    assert s[m..m + 1] == [s[m]] == ".";
    assert s[q..end] == s[q..m] + s[m..m + 1] + s[m + 1..end];
  }

  lemma FileNameAtComplete(s: string, q: nat, stem: string, ext: string)
    requires FileNameLayout(s, q, stem, ext)
    ensures FileNameAt(s, q) == Some(stem + "." + ext)
  {
    var m := q + |stem|;
    var end := m + 1 + |ext|;
    FileNameDot(s, q, stem, ext);
    LastExtensionDotIs(s, q + 1, Span(s, q, IsNameChar), m);
    SpanOver(s, ext, m + 1, IsWordChar);
    FileNameText(s, q, stem, ext);
    FileNameOfParts(s, q, m, end, stem + "." + ext);
  }

  /** The dot of a file name layout starts an extension inside the run of name characters. */
  lemma FileNameDot(s: string, q: nat, stem: string, ext: string)
    requires FileNameLayout(s, q, stem, ext)
    ensures IsExtensionDot(s, q + |stem|) && q + |stem| < Span(s, q, IsNameChar)
  {
    var m := q + |stem|;
    assert s[m] == s[m..m + 1][0] == '.';
    assert s[m + 1] == ext[0] by { OccursAtIndex(s, ext, m + 1); }
    forall k | q <= k < m + 1 ensures IsNameChar(s[k]) {
      if k < m { OccursAtIndex(s, stem, q); assert s[k] == stem[k - q]; }
    }
    SpanAtLeast(s, q, |stem| + 1, IsNameChar);
  }

  /** The text a file name layout spans. */
  lemma FileNameText(s: string, q: nat, stem: string, ext: string)
    requires OccursAt(s, stem, q) && OccursAt(s, ".", q + |stem|) && OccursAt(s, ext, q + |stem| + 1)
    ensures s[q..q + |stem| + 1 + |ext|] == stem + "." + ext
  {
    var m := q + |stem|;
    assert s[q..m + 1 + |ext|] == s[q..m] + s[m..m + 1] + s[m + 1..m + 1 + |ext|];
  }

  lemma FileNameOfParts(s: string, q: nat, m: nat, end: nat, name: string)
    requires q <= |s| && LastExtensionDot(s, q + 1, Span(s, q, IsNameChar)) == Some(m)
    requires Span(s, m + 1, IsWordChar) == end && q <= end <= |s| && s[q..end] == name
    ensures FileNameAt(s, q) == Some(name)
  {
  }

  /** An attachment reference at `i`: the directory layout, then the file name layout right after it. */
  predicate AttachmentLayout(s: string, i: nat, dir: string, stem: string, ext: string)
  {
    DirectoryLayout(s, i, dir, true) && FileNameLayout(s, i + 13 + |dir|, stem, ext)
  }

  /** An attachment reference found at `i` is laid out that way, and the file name group is the stem, a dot and the extension. */
  lemma AttachmentAtSound(s: string, i: nat, a: AttachmentMatch) returns (stem: string, ext: string)
    requires AttachmentAt(s, i) == Some(a)
    ensures AttachmentLayout(s, i, a.directory, stem, ext) && a.filename == stem + "." + ext
  {
    var d := AttachmentParts(s, i, a);
    stem, ext := PartsSound(s, i, d, a.directory, a.filename);
  }

  /** The directory digits and the file name a found attachment reference is made of. */
  lemma AttachmentParts(s: string, i: nat, a: AttachmentMatch) returns (d: (nat, nat))
    requires AttachmentAt(s, i) == Some(a)
    ensures DirectoryDigitsAt(s, i, true) == Some(d) && a.directory == s[d.0..d.1]
    ensures d.1 + 1 <= |s| && FileNameAt(s, d.1 + 1) == Some(a.filename)
  {
    d := DirectoryDigitsAt(s, i, true).value;
  }

  lemma PartsSound(s: string, i: nat, d: (nat, nat), dir: string, name: string) returns (stem: string, ext: string)
    requires DirectoryDigitsAt(s, i, true) == Some(d) && dir == s[d.0..d.1]
    requires d.1 + 1 <= |s| && FileNameAt(s, d.1 + 1) == Some(name)
    ensures AttachmentLayout(s, i, dir, stem, ext) && name == stem + "." + ext
  {
    DirectoryDigitsAtSound(s, i, true, d, dir);
    stem, ext := FileNameAtSound(s, d.1 + 1, name);
    AttachmentLayoutOf(s, i, dir, d.1 + 1, stem, ext);
  }

  lemma AttachmentLayoutOf(s: string, i: nat, dir: string, q: nat, stem: string, ext: string)
    requires DirectoryLayout(s, i, dir, true) && q == i + 13 + |dir| && FileNameLayout(s, q, stem, ext)
    ensures AttachmentLayout(s, i, dir, stem, ext)
  {
  }

  /** Conversely, an attachment reference laid out that way is found there, with exactly those groups. */
  lemma AttachmentAtComplete(s: string, i: nat, dir: string, stem: string, ext: string)
    requires AttachmentLayout(s, i, dir, stem, ext)
    ensures AttachmentAt(s, i) == Some(AttachmentMatch(dir, stem + "." + ext))
  {
    var d := PartsComplete(s, i, dir, stem, ext);
    AttachmentOfParts(s, i, d, stem + "." + ext);
  }

  lemma PartsComplete(s: string, i: nat, dir: string, stem: string, ext: string) returns (d: (nat, nat))
    requires AttachmentLayout(s, i, dir, stem, ext)
    ensures DirectoryDigitsAt(s, i, true) == Some(d) && s[d.0..d.1] == dir
    ensures d.1 + 1 <= |s| && FileNameAt(s, d.1 + 1) == Some(stem + "." + ext)
  {
    d := DirectoryOfLayout(s, i, dir);
    FileNameOfLayout(s, i, dir, stem, ext);
  }

  /** The file name of an attachment layout is found right after the directory's separator. */
  lemma FileNameOfLayout(s: string, i: nat, dir: string, stem: string, ext: string)
    requires AttachmentLayout(s, i, dir, stem, ext)
    ensures i + 13 + |dir| <= |s| && FileNameAt(s, i + 13 + |dir|) == Some(stem + "." + ext)
  {
    FileNameAtComplete(s, i + 13 + |dir|, stem, ext);
  }

  /** The directory digits of a directory layout, as a span that ends just before the file name. */
  lemma DirectoryOfLayout(s: string, i: nat, dir: string) returns (d: (nat, nat))
    requires DirectoryLayout(s, i, dir, true)
    ensures DirectoryDigitsAt(s, i, true) == Some(d) && s[d.0..d.1] == dir && d.1 + 1 == i + 13 + |dir|
  {
    d := (i + 12, i + 12 + |dir|);
    DirectoryDigitsAtComplete(s, i, dir, true);
  }

  lemma AttachmentOfParts(s: string, i: nat, d: (nat, nat), name: string)
    requires DirectoryDigitsAt(s, i, true) == Some(d) && d.1 + 1 <= |s| && FileNameAt(s, d.1 + 1) == Some(name)
    ensures AttachmentAt(s, i) == Some(AttachmentMatch(s[d.0..d.1], name))
  {
  }
}
