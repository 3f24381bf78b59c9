/**
 * The chat notifications (notification/formatter.go): the reminder for
 * tomorrow's duty and the announcement of an automatic assignment, both in
 * Telegram's MarkdownV2, whose reserved characters are escaped with a
 * backslash wherever text from the data is spliced in.
 */
module Formatter {
  import opened Civil
  import opened Store

  /** The characters MarkdownV2 reserves, in the order they are escaped. */
  const CharsToEscape: seq<char> :=
    ['_', '*', '[', ']', '(', ')', '~', '`', '>', '#', '+', '-', '=', '|', '{', '}', '.', '!']

  const Backslash := '\\'

  const ReminderHead := "🔔 *Duty Reminder* 🔔\n\nTomorrow, *"
  const ReminderMiddle := "*, the duty is assigned to *"
  const AutoBanner := "📢 *Automatic Duty Assignment* 📢\n\n"
  const AutoOpening := AutoBanner + "No duty was scheduled for tomorrow"
  const AutoRound := " The round"
  const AutoClosing := "robin scheduler has assigned the duty for *"
  const AutoHead := AutoOpening + "\\." + AutoRound + "\\-" + AutoClosing
  const AutoMiddle := "* to *"
  const MessageEnd := "*\\."

  const ErrorPrefix := "Error: "
  const DutyMissingMsg := ErrorPrefix + "Could not format duty message, essential data is missing."
  const AutoDutyMissingMsg := ErrorPrefix + "Could not format auto-assignment message, essential data is missing."

  predicate Reserved(c: char)
  {
    c in CharsToEscape
  }

  // ---------------------------------------------------------------------
  // Escaping
  // ---------------------------------------------------------------------

  /** Every occurrence of `c` in `s` preceded by a backslash. */
  function ReplaceAll(s: string, c: char): (r: string)
    ensures |r| >= |s|
  {
    if |s| == 0 then ""
    else
      var last := s[|s| - 1];
      ReplaceAll(s[..|s| - 1], c) + (if last == c then [Backslash, c] else [last])
  }

  /** `s` after the replacements for `chars`, applied one after the other. */
  function ReplaceEach(s: string, chars: seq<char>): string
  {
    if |chars| == 0 then s else ReplaceAll(ReplaceEach(s, chars[..|chars| - 1]), chars[|chars| - 1])
  }

  /** One character, escaped when it is in `chars`. */
  function EscapeChar(c: char, chars: set<char>): string
  {
    if c in chars then [Backslash, c] else [c]
  }

  /** Every character of `s` that lies in `chars` escaped where it stands. */
  function EscapeIn(s: string, chars: set<char>): string
  {
    if |s| == 0 then "" else EscapeIn(s[..|s| - 1], chars) + EscapeChar(s[|s| - 1], chars)
  }

  function CharSet(chars: seq<char>): set<char>
  {
    set c | c in chars
  }

  /** A sequence without repeats has as many distinct characters as it has elements. */
  lemma {:induction false} CharSetSize(chars: seq<char>)
    requires forall i, j :: 0 <= i < j < |chars| ==> chars[i] != chars[j]
    ensures |CharSet(chars)| == |chars|
  {
    if |chars| > 0 {
      CharSetSize(chars[..|chars| - 1]);
      LastCharSet(chars);
    }
  }

  /** No reserved character is listed twice. */
  lemma EscapeCharsDistinct()
    ensures forall i, j :: 0 <= i < j < |CharsToEscape| ==> CharsToEscape[i] != CharsToEscape[j]
  {
  }

  lemma ReservedNotBackslash()
    ensures forall k :: 0 <= k < |CharsToEscape| ==> CharsToEscape[k] != Backslash
  {
  }

  /** The reserved characters: eighteen distinct ones, the backslash not among them. */
  function ReservedSet(): (r: set<char>)
    ensures forall c :: c in r <==> Reserved(c)
    ensures |r| == 18 && Backslash !in r
  {
    EscapeCharsDistinct();
    CharSetSize(CharsToEscape);
    CharSet(CharsToEscape)
  }

  /** The MarkdownV2 escape of `s`: a backslash before every reserved character. */
  function Escape(s: string): string
  {
    EscapeIn(s, ReservedSet())
  }

  // ---------------------------------------------------------------------
  // Properties of escaping
  // ---------------------------------------------------------------------

  lemma {:induction false} EscapeInAppend(a: string, b: string, chars: set<char>)
    ensures EscapeIn(a + b, chars) == EscapeIn(a, chars) + EscapeIn(b, chars)
    decreases |b|
  {
    if |b| > 0 {
      assert (a + b)[..|a + b| - 1] == a + b[..|b| - 1];
      EscapeInAppend(a, b[..|b| - 1], chars);
    } else {
      assert a + b == a;
    }
  }

  lemma {:induction false} ReplaceAllAppend(a: string, b: string, c: char)
    ensures ReplaceAll(a + b, c) == ReplaceAll(a, c) + ReplaceAll(b, c)
    decreases |b|
  {
    if |b| > 0 {
      assert (a + b)[..|a + b| - 1] == a + b[..|b| - 1];
      ReplaceAllAppend(a, b[..|b| - 1], c);
    } else {
      assert a + b == a;
    }
  }

  /**
   * Replacing a new character that is not the backslash extends an escape
   * by that character: the backslashes already inserted are left alone.
   */
  lemma {:induction false} ReplaceExtendsEscape(s: string, chars: set<char>, c: char)
    requires c != Backslash && c !in chars
    ensures ReplaceAll(EscapeIn(s, chars), c) == EscapeIn(s, chars + {c})
  {
    if |s| > 0 {
      var front, last := s[..|s| - 1], s[|s| - 1];
      ReplaceExtendsEscape(front, chars, c);
      ReplaceAllAppend(EscapeIn(front, chars), EscapeChar(last, chars), c);
      ReplaceExtendsChar(last, chars, c);
    }
  }

  lemma ReplaceExtendsChar(last: char, chars: set<char>, c: char)
    requires c != Backslash && c !in chars
    ensures ReplaceAll(EscapeChar(last, chars), c) == EscapeChar(last, chars + {c})
  {
    assert ReplaceAll([last], c) == (if last == c then [Backslash, c] else [last]) by {
      assert [last][..0] == [];
    }
    if last in chars {
      ReplaceAllAppend([Backslash], [last], c);
      assert ReplaceAll([Backslash], c) == [Backslash] by {
        assert [Backslash][..0] == [];
      }
    }
  }

  /** Replacing one character is escaping that character alone. */
  lemma {:induction false} ReplaceIsEscape(s: string, c: char)
    ensures ReplaceAll(s, c) == EscapeIn(s, {c})
  {
    if |s| > 0 {
      ReplaceIsEscape(s[..|s| - 1], c);
    }
  }

  /**
   * The replacements applied one character after the other escape exactly
   * those characters, provided no character repeats and only the first
   * may be the backslash.
   */
  lemma {:induction false} ReplaceEachEscapes(s: string, chars: seq<char>)
    requires forall k :: 1 <= k < |chars| ==> chars[k] != Backslash
    requires forall i, j :: 0 <= i < j < |chars| ==> chars[i] != chars[j]
    ensures ReplaceEach(s, chars) == EscapeIn(s, CharSet(chars))
  {
    if |chars| == 0 {
      EscapeInNothing(s);
      assert CharSet(chars) == {};
    } else if |chars| == 1 {
      assert chars[..0] == [];
      ReplaceIsEscape(s, chars[0]);
      assert CharSet(chars) == {chars[0]};
    } else {
      var front, last := chars[..|chars| - 1], chars[|chars| - 1];
      ReplaceEachEscapes(s, front);
      LastCharSet(chars);
      ReplaceExtendsEscape(s, CharSet(front), last);
    }
  }

  /** The last of characters without repeats is new to the set of those before it. */
  lemma LastCharSet(chars: seq<char>)
    requires |chars| > 0
    requires forall i, j :: 0 <= i < j < |chars| ==> chars[i] != chars[j]
    ensures chars[|chars| - 1] !in CharSet(chars[..|chars| - 1])
    ensures CharSet(chars) == CharSet(chars[..|chars| - 1]) + {chars[|chars| - 1]}
  {
    var front := chars[..|chars| - 1];
    assert forall k :: 0 <= k < |front| ==> front[k] == chars[k];
    assert chars == front + [chars[|chars| - 1]];
  }

  lemma {:induction false} EscapeInNothing(s: string)
    ensures EscapeIn(s, {}) == s
  {
    if |s| > 0 {
      EscapeInNothing(s[..|s| - 1]);
    }
  }

  /** Text without reserved characters is left as it is. */
  lemma {:induction false} EscapePlain(s: string)
    requires forall i :: 0 <= i < |s| ==> !Reserved(s[i])
    ensures Escape(s) == s
  {
    if |s| > 0 {
      EscapePlain(s[..|s| - 1]);
    }
  }

  /** The escape grows by one backslash per reserved character, and starts with no reserved character. */
  lemma {:induction false} EscapeShape(s: string)
    ensures |Escape(s)| == |s| + CountReserved(s)
    ensures |Escape(s)| > 0 ==> !Reserved(Escape(s)[0])
  {
    if |s| > 0 {
      EscapeShape(s[..|s| - 1]);
    }
  }

  function CountReserved(s: string): nat
  {
    if |s| == 0 then 0 else CountReserved(s[..|s| - 1]) + (if Reserved(s[|s| - 1]) then 1 else 0)
  }

  /**
   * In escaped text every reserved character is preceded by a backslash,
   * so none of them can start a MarkdownV2 entity.
   */
  lemma {:induction false} EscapedIsSafe(s: string)
    ensures var e := Escape(s);
            forall i :: 0 <= i < |e| && Reserved(e[i]) ==> i > 0 && e[i - 1] == Backslash
  {
    if |s| > 0 {
      var front := s[..|s| - 1];
      EscapedIsSafe(front);
      var e, f := Escape(s), Escape(front);
      assert e == f + EscapeChar(s[|s| - 1], ReservedSet());
      forall i | 0 <= i < |e| && Reserved(e[i])
        ensures i > 0 && e[i - 1] == Backslash
      {
        if i < |f| {
          assert e[i] == f[i] && e[i - 1] == f[i - 1];
        }
      }
    }
  }

  /** Drops the backslash in front of every reserved character. */
  function Unescape(s: string): string
    decreases |s|
  {
    if |s| == 0 then ""
    else if |s| >= 2 && s[0] == Backslash && Reserved(s[1]) then [s[1]] + Unescape(s[2..])
    else [s[0]] + Unescape(s[1..])
  }

  /** Escaping forgets nothing: the recipient recovers the text exactly. */
  lemma {:induction false} UnescapeEscape(s: string)
    ensures Unescape(Escape(s)) == s
  {
    if |s| > 0 {
      var c, rest := s[0], s[1..];
      UnescapeEscape(rest);
      EscapeShape(rest);
      EscapeInAppend([c], rest, ReservedSet());
      assert s == [c] + rest;
      assert EscapeIn([c], ReservedSet()) == EscapeChar(c, ReservedSet()) by {
        assert [c][..0] == [];
      }
      UnescapeStep(c, Escape(rest));
    }
  }

  /** Unescaping an escaped character followed by an escape that does not start with a reserved character. */
  lemma UnescapeStep(c: char, t: string)
    requires |t| > 0 ==> !Reserved(t[0])
    ensures Unescape(EscapeChar(c, ReservedSet()) + t) == [c] + Unescape(t)
  {
    var e := EscapeChar(c, ReservedSet()) + t;
    if Reserved(c) {
      assert e == [Backslash, c] + t;
      assert e[2..] == t;
    } else {
      assert e == [c] + t;
      assert e[1..] == t;
      if |e| >= 2 && c == Backslash {
        assert e[1] == t[0];
      }
    }
  }

  /** The handler's loop: one replacement per reserved character, in order. */
  method EscapeMarkdown(text: string) returns (s: string)
    ensures s == ReplaceEach(text, CharsToEscape)
    ensures s == Escape(text)
  {
    s := text;
    for k := 0 to |CharsToEscape|
      invariant s == ReplaceEach(text, CharsToEscape[..k])
    {
      assert CharsToEscape[..k + 1][..k] == CharsToEscape[..k];
      s := ReplaceAll(s, CharsToEscape[k]);
    }
    assert CharsToEscape[..|CharsToEscape|] == CharsToEscape;
    EscapeCharsDistinct();
    ReservedNotBackslash();
    ReplaceEachEscapes(text, CharsToEscape);
    assert CharSet(CharsToEscape) == ReservedSet();
  }

  // ---------------------------------------------------------------------
  // How MarkdownV2 reads text, and the escape it needs
  // ---------------------------------------------------------------------

  /** A unit of MarkdownV2 text: a character shown as it is, or a character that marks up. */
  datatype Token = Text(c: char) | Markup(c: char)

  /**
   * MarkdownV2 read left to right: a backslash makes the next character
   * plain text, whatever it is; a reserved character on its own is markup.
   */
  function Lex(s: string): seq<Token>
    decreases |s|
  {
    if |s| == 0 then []
    else if s[0] == Backslash && |s| >= 2 then [Text(s[1])] + Lex(s[2..])
    else [Classify(s[0])] + Lex(s[1..])
  }

  /** A character read on its own: markup when reserved, plain text otherwise. */
  function Classify(c: char): Token
  {
    if Reserved(c) then Markup(c) else Text(c)
  }

  /** Every character of `s` as plain text. */
  function Literals(s: string): (r: seq<Token>)
    ensures |r| == |s| && forall i :: 0 <= i < |s| ==> r[i] == Text(s[i])
  {
    if |s| == 0 then [] else Literals(s[..|s| - 1]) + [Text(s[|s| - 1])]
  }

  /** The characters that need a backslash: the backslash itself first, then the reserved ones. */
  const CharsToEscapeV2: seq<char> := [Backslash] + CharsToEscape

  /** The escape MarkdownV2 asks for: the reserved characters and the backslash. */
  function EscapeV2(s: string): string
  {
    EscapeIn(s, CharSet(CharsToEscapeV2))
  }

  /**
   * Without the backslash among the escaped characters, a name that ends
   * in a backslash swallows the markup that follows it: the text `\`
   * escaped and followed by `*` reads as a plain `*`, not as a plain
   * backslash and then markup.
   */
  lemma EscapeLeavesBackslash()
    ensures Escape([Backslash]) == [Backslash]
    ensures Lex(Escape([Backslash]) + "*") == [Text('*')]
    ensures Literals([Backslash]) + Lex("*") == [Text(Backslash), Markup('*')]
  {
    BackslashNotReserved();
    EscapeOne(Backslash, ReservedSet());
    LexEscapePair('*', []);
    assert "*"[1..] == [];
  }

  lemma BackslashNotReserved()
    ensures !Reserved(Backslash) && Reserved('*')
  {
  }

  lemma EscapeOne(c: char, chars: set<char>)
    ensures EscapeIn([c], chars) == EscapeChar(c, chars)
  {
    assert [c][..0] == [];
  }

  /** The corrected escape of a character followed by more text. */
  lemma EscapeV2Cons(c: char, rest: string)
    ensures EscapeV2([c] + rest) == EscapeChar(c, CharSet(CharsToEscapeV2)) + EscapeV2(rest)
  {
    EscapeInAppend([c], rest, CharSet(CharsToEscapeV2));
    EscapeOne(c, CharSet(CharsToEscapeV2));
  }

  /** One character escaped by the corrected escape reads as that character, plain. */
  lemma LexEscapedChar(c: char, tail: string)
    ensures Lex(EscapeChar(c, CharSet(CharsToEscapeV2)) + tail) == [Text(c)] + Lex(tail)
  {
    var chars := CharSet(CharsToEscapeV2);
    var whole := EscapeChar(c, chars) + tail;
    if c in chars {
      assert whole == [Backslash, c] + tail;
      assert whole[2..] == tail;
    } else {
      assert c != Backslash && !Reserved(c);
      assert whole == [c] + tail;
      assert whole[1..] == tail;
    }
  }

  /** The corrected escape reads back as plain text and leaves what follows it as it was. */
  lemma {:induction false} EscapeV2IsPlainText(x: string, t: string)
    ensures Lex(EscapeV2(x) + t) == Literals(x) + Lex(t)
  {
    if |x| > 0 {
      var c, rest := x[0], x[1..];
      assert x == [c] + rest;
      var escRest := EscapeV2(rest) + t;
      EscapeV2IsPlainText(rest, t);
      EscapeV2Cons(c, rest);
      var e := EscapeChar(c, CharSet(CharsToEscapeV2));
      assert EscapeV2(x) + t == e + escRest;
      LexEscapedChar(c, escRest);
      LiteralsCons(c, rest);
    } else {
      assert EscapeV2(x) + t == t;
    }
  }

  lemma LiteralsCons(c: char, rest: string)
    ensures Literals([c] + rest) == [Text(c)] + Literals(rest)
  {
    assert |Literals([c] + rest)| == |[Text(c)] + Literals(rest)|;
  }

  /** The source's escape and the corrected one agree on text without backslashes. */
  lemma {:induction false} EscapesAgree(s: string)
    requires forall i :: 0 <= i < |s| ==> s[i] != Backslash
    ensures EscapeV2(s) == Escape(s)
  {
    if |s| > 0 {
      EscapesAgree(s[..|s| - 1]);
      assert s[|s| - 1] in CharSet(CharsToEscapeV2) <==> s[|s| - 1] in ReservedSet();
    }
  }

  /** The corrected list escapes no character twice and holds the backslash only first. */
  lemma EscapeCharsV2Distinct()
    ensures forall i, j :: 0 <= i < j < |CharsToEscapeV2| ==> CharsToEscapeV2[i] != CharsToEscapeV2[j]
    ensures forall k :: 1 <= k < |CharsToEscapeV2| ==> CharsToEscapeV2[k] != Backslash
  {
    EscapeCharsDistinct();
    ReservedNotBackslash();
    forall i, j | 0 <= i < j < |CharsToEscapeV2|
      ensures CharsToEscapeV2[i] != CharsToEscapeV2[j]
    {
      assert CharsToEscapeV2[j] == CharsToEscape[j - 1];
      if i > 0 {
        assert CharsToEscapeV2[i] == CharsToEscape[i - 1];
      }
    }
    forall k | 1 <= k < |CharsToEscapeV2|
      ensures CharsToEscapeV2[k] != Backslash
    {
      assert CharsToEscapeV2[k] == CharsToEscape[k - 1];
    }
  }

  /** The corrected loop: the backslash is replaced first, so the backslashes added later stay single. */
  method EscapeMarkdownV2(text: string) returns (s: string)
    ensures s == EscapeV2(text)
  {
    s := text;
    for k := 0 to |CharsToEscapeV2|
      invariant s == ReplaceEach(text, CharsToEscapeV2[..k])
    {
      assert CharsToEscapeV2[..k + 1][..k] == CharsToEscapeV2[..k];
      s := ReplaceAll(s, CharsToEscapeV2[k]);
    }
    assert CharsToEscapeV2[..|CharsToEscapeV2|] == CharsToEscapeV2;
    EscapeCharsV2Distinct();
    ReplaceEachEscapes(text, CharsToEscapeV2);
  }

  // ---------------------------------------------------------------------
  // The messages
  // ---------------------------------------------------------------------

  /** The reminder text for a date and a first name, escaped as the source escapes them. */
  function Reminder(date: string, name: string): string
  {
    ReminderHead + Escape(date) + ReminderMiddle + Escape(name) + MessageEnd
  }

  /** The announcement text for a date and a first name, escaped as the source escapes them. */
  function Announcement(date: string, name: string): string
  {
    AutoHead + Escape(date) + AutoMiddle + Escape(name) + MessageEnd
  }

  /** The reminder with the corrected escape. */
  function ReminderV2(date: string, name: string): string
  {
    ReminderHead + EscapeV2(date) + ReminderMiddle + EscapeV2(name) + MessageEnd
  }

  /** The announcement with the corrected escape. */
  function AnnouncementV2(date: string, name: string): string
  {
    AutoHead + EscapeV2(date) + AutoMiddle + EscapeV2(name) + MessageEnd
  }

  /** The reminder for a duty already on the schedule for tomorrow: the error text exactly when data is missing. */
  function FormatDutyAssignedMessage(duty: Option<Duty>): (r: string)
    ensures r == DutyMissingMsg <==> duty.None? || duty.value.user.None?
  {
    if duty.None? || duty.value.user.None? then DutyMissingMsg
    else
      var date, name := FormatLong(duty.value.date), duty.value.user.value.firstName;
      ReminderIsNotError(Escape(date), Escape(name));
      Reminder(date, name)
  }

  /** The announcement of a duty the scheduler has just assigned: the error text exactly when data is missing. */
  function FormatDutyAutoAssignedMessage(duty: Option<Duty>): (r: string)
    ensures r == AutoDutyMissingMsg <==> duty.None? || duty.value.user.None?
  {
    if duty.None? || duty.value.user.None? then AutoDutyMissingMsg
    else
      var date, name := FormatLong(duty.value.date), duty.value.user.value.firstName;
      AnnouncementIsNotError(Escape(date), Escape(name));
      Announcement(date, name)
  }

  /** The reminder with the corrected escape, with the same error case. */
  function FormatDutyAssignedMessageV2(duty: Option<Duty>): (r: string)
    ensures r == DutyMissingMsg <==> duty.None? || duty.value.user.None?
  {
    if duty.None? || duty.value.user.None? then DutyMissingMsg
    else
      var date, name := FormatLong(duty.value.date), duty.value.user.value.firstName;
      ReminderIsNotError(EscapeV2(date), EscapeV2(name));
      ReminderV2(date, name)
  }

  /** The announcement with the corrected escape, with the same error case. */
  function FormatDutyAutoAssignedMessageV2(duty: Option<Duty>): (r: string)
    ensures r == AutoDutyMissingMsg <==> duty.None? || duty.value.user.None?
  {
    if duty.None? || duty.value.user.None? then AutoDutyMissingMsg
    else
      var date, name := FormatLong(duty.value.date), duty.value.user.value.firstName;
      AnnouncementIsNotError(EscapeV2(date), EscapeV2(name));
      AnnouncementV2(date, name)
  }

  /** A reminder starts with its bell, the error text with a letter. */
  lemma ReminderIsNotError(date: string, name: string)
    ensures ReminderHead + date + ReminderMiddle + name + MessageEnd != DutyMissingMsg
  {
    var r := ReminderHead + date + ReminderMiddle + name + MessageEnd;
    assert r[0] == ReminderHead[0];
    assert DutyMissingMsg[0] == ErrorPrefix[0];
  }

  /** An announcement starts with its loudspeaker, the error text with a letter. */
  lemma AnnouncementIsNotError(date: string, name: string)
    ensures AutoHead + date + AutoMiddle + name + MessageEnd != AutoDutyMissingMsg
  {
    var r := AutoHead + date + AutoMiddle + name + MessageEnd;
    assert r[0] == AutoBanner[0];
    assert AutoDutyMissingMsg[0] == ErrorPrefix[0];
  }

  // ---------------------------------------------------------------------
  // Properties of the messages
  // ---------------------------------------------------------------------

  /** Text without backslashes reads the same whatever follows it. */
  lemma {:induction false} LexPlainPrefix(a: string, t: string)
    requires Backslash !in a
    ensures Lex(a + t) == Lex(a) + Lex(t)
  {
    if |a| > 0 {
      LexPlainPrefix(a[1..], t);
      LexPlainHead(a);
      LexPlainHead(a + t);
      assert (a + t)[1..] == a[1..] + t;
    } else {
      assert a + t == t;
    }
  }

  lemma LexPlainHead(s: string)
    requires |s| > 0 && s[0] != Backslash
    ensures Lex(s) == [Classify(s[0])] + Lex(s[1..])
  {
  }

  /** A backslash and the character after it read as that character, plain. */
  lemma LexEscapePair(c: char, t: string)
    ensures Lex([Backslash, c] + t) == [Text(c)] + Lex(t)
  {
    assert ([Backslash, c] + t)[2..] == t;
  }

  lemma LexMessageEnd()
    ensures Lex(MessageEnd) == [Markup('*'), Text('.')]
  {
    var s := MessageEnd;
    assert s[1..] == [Backslash, '.'];
    assert s[1..][2..] == [];
  }

  lemma PlainThenEscaped(plain: string, x: string, end: string)
    requires Backslash !in plain
    ensures Lex(plain + EscapeV2(x) + end) == Lex(plain) + Literals(x) + Lex(end)
  {
    assert plain + EscapeV2(x) + end == plain + (EscapeV2(x) + end);
    LexPlainPrefix(plain, EscapeV2(x) + end);
    EscapeV2IsPlainText(x, end);
  }

  /**
   * A message made of fixed text and escaped data: the date and the name
   * read as plain text, and the markup comes from the fixed parts alone.
   */
  lemma TemplateMarkup(head: string, date: string, middle: string, name: string, end: string)
    requires Backslash !in head && Backslash !in middle
    ensures Lex(head + EscapeV2(date) + middle + EscapeV2(name) + end)
            == Lex(head) + Literals(date) + Lex(middle) + Literals(name) + Lex(end)
  {
    var rest := middle + EscapeV2(name) + end;
    AppendThree(head + EscapeV2(date), middle, EscapeV2(name), end);
    PlainThenEscaped(head, date, rest);
    PlainThenEscaped(middle, name, end);
    var lexRest := Lex(rest);
    AppendThree(Lex(head) + Literals(date), Lex(middle), Literals(name), Lex(end));
  }

  lemma AppendThree<T>(x: seq<T>, a: seq<T>, b: seq<T>, c: seq<T>)
    ensures x + a + b + c == x + (a + b + c)
  {
  }

  lemma ReminderPlain()
    ensures Backslash !in ReminderHead && Backslash !in ReminderMiddle
  {
  }

  /**
   * In the corrected reminder the date and the first name are plain text
   * whatever characters they hold: all markup comes from the fixed text
   * around them.
   */
  lemma ReminderMarkup(date: string, name: string)
    ensures Lex(ReminderV2(date, name))
            == Lex(ReminderHead) + Literals(date) + Lex(ReminderMiddle)
               + Literals(name) + [Markup('*'), Text('.')]
  {
    ReminderPlain();
    TemplateMarkup(ReminderHead, date, ReminderMiddle, name, MessageEnd);
    LexMessageEnd();
  }

  lemma OpeningPlain()
    ensures Backslash !in AutoOpening
  {
    assert Backslash !in AutoBanner;
    assert Backslash !in "No duty was scheduled for tomorrow";
  }

  lemma ClosingPlain()
    ensures Backslash !in AutoClosing
  {
  }

  lemma AnnouncementPlain()
    ensures Backslash !in AutoOpening && Backslash !in AutoRound
    ensures Backslash !in AutoClosing && Backslash !in AutoMiddle
  {
    OpeningPlain();
    ClosingPlain();
  }

  /** An escaped character, plain text, then anything. */
  lemma PairThenPlain(c: char, plain: string, t: string)
    requires Backslash !in plain
    ensures Lex([Backslash, c] + plain + t) == [Text(c)] + Lex(plain) + Lex(t)
  {
    var rest := plain + t;
    assert [Backslash, c] + plain + t == [Backslash, c] + rest;
    LexEscapePair(c, rest);
    LexPlainPrefix(plain, t);
    var lp, lt := Lex(plain), Lex(t);
    assert [Text(c)] + (lp + lt) == [Text(c)] + lp + lt;
  }

  /** The announcement's layout, for any fixed pieces without backslashes. */
  lemma AnnouncementShape(opening: string, round: string, closing: string, middle: string,
                          date: string, name: string, end: string)
    requires Backslash !in opening && Backslash !in round
    requires Backslash !in closing && Backslash !in middle
    ensures Lex(opening + [Backslash, '.'] + round + [Backslash, '-'] + closing
                + EscapeV2(date) + middle + EscapeV2(name) + end)
            == Lex(opening) + [Text('.')] + Lex(round) + [Text('-')] + Lex(closing)
               + Literals(date) + Lex(middle) + Literals(name) + Lex(end)
  {
    var dotPair: string, dashPair: string := [Backslash, '.'], [Backslash, '-'];
    var ed, en := EscapeV2(date), EscapeV2(name);
    var tail := closing + ed + middle + en + end;
    AppendFive(opening + dotPair + round + dashPair, closing, ed, middle, en, end);
    AppendFour(opening, dotPair, round, dashPair, tail);
    var lexTail := Lex(tail);
    TemplateMarkup(closing, date, middle, name, end);
    LexEscapePair('-', tail);
    PairThenPlain('.', round, dashPair + tail);
    LexPlainPrefix(opening, dotPair + round + (dashPair + tail));
    var lo, lr := Lex(opening), Lex(round);
    var dot, dash := [Text('.')], [Text('-')];
    AppendFour(lo, dot, lr, dash, lexTail);
    AppendFive(lo + dot + lr + dash, Lex(closing), Literals(date), Lex(middle), Literals(name), Lex(end));
  }

  lemma AppendFour<T>(a: seq<T>, b: seq<T>, c: seq<T>, d: seq<T>, t: seq<T>)
    ensures a + b + c + d + t == a + (b + c + (d + t))
  {
  }

  lemma AppendFive<T>(x: seq<T>, a: seq<T>, b: seq<T>, c: seq<T>, d: seq<T>, e: seq<T>)
    ensures x + a + b + c + d + e == x + (a + b + c + d + e)
  {
  }

  /**
   * The same holds for the corrected announcement of an automatic
   * assignment, whose fixed text holds two escaped characters of its own.
   */
  lemma AnnouncementMarkup(date: string, name: string)
    ensures Lex(AnnouncementV2(date, name))
            == Lex(AutoOpening) + [Text('.')] + Lex(AutoRound) + [Text('-')] + Lex(AutoClosing)
               + Literals(date) + Lex(AutoMiddle)
               + Literals(name) + [Markup('*'), Text('.')]
  {
    AnnouncementPlain();
    AnnouncementShape(AutoOpening, AutoRound, AutoClosing, AutoMiddle, date, name, MessageEnd);
    LexMessageEnd();
  }

  /**
   * The source's messages for a first name that is a lone backslash: the
   * reminder ends in `*\*\.`, the name's backslash escapes the closing
   * `*`, and the bold opened before the name is never closed. The corrected
   * reminder shows the backslash and closes the bold.
   */
  lemma BackslashNameBreaksReminder(date: string)
    requires Backslash !in date
    ensures var r := Reminder(date, [Backslash]);
            |r| >= 5 && r[|r| - 5..] == ['*', Backslash, '*', Backslash, '.']
    ensures Lex(Reminder(date, [Backslash]))
            == Lex(ReminderHead) + Literals(date) + Lex(ReminderMiddle) + [Text('*'), Text('.')]
    ensures Lex(ReminderV2(date, [Backslash]))
            == Lex(ReminderHead) + Literals(date) + Lex(ReminderMiddle)
               + [Text(Backslash), Markup('*'), Text('.')]
  {
    var lead := ReminderHead + EscapeV2(date);
    var front := lead + ReminderMiddle;
    BackslashReminderText(date, front);
    MiddleEndsBold(lead);
    BackslashReminderEnd(front);
    BackslashReminderLex(date, front);
    ReminderMarkup(date, [Backslash]);
    var prefix := Lex(ReminderHead) + Literals(date) + Lex(ReminderMiddle);
    LiteralThenEnd(prefix, Backslash);
  }

  lemma LiteralThenEnd(prefix: seq<Token>, c: char)
    ensures prefix + Literals([c]) + [Markup('*'), Text('.')] == prefix + [Text(c), Markup('*'), Text('.')]
  {
    assert Literals([c]) == [Text(c)];
  }

  /** With a backslash for a name, the source's reminder is the fixed text, the date, then `\*\.`. */
  lemma BackslashReminderText(date: string, front: string)
    requires Backslash !in date
    requires front == ReminderHead + EscapeV2(date) + ReminderMiddle
    ensures Reminder(date, [Backslash]) == front + [Backslash, '*', Backslash, '.']
  {
    EscapeLeavesBackslash();
    EscapesAgree(date);
    assert MessageEnd == ['*', Backslash, '.'];
    assert front + [Backslash] + MessageEnd == front + ([Backslash] + MessageEnd);
  }

  lemma BackslashReminderEnd(front: string)
    requires |front| > 0 && front[|front| - 1] == '*'
    ensures var r := front + [Backslash, '*', Backslash, '.'];
            r[|r| - 5..] == ['*', Backslash, '*', Backslash, '.']
  {
  }

  lemma MiddleEndsBold(lead: string)
    ensures var front := lead + ReminderMiddle; |front| > 0 && front[|front| - 1] == '*'
  {
    var m := "*, the duty is assigned to ";
    assert ReminderMiddle == m + "*";
  }

  lemma BackslashReminderLex(date: string, front: string)
    requires front == ReminderHead + EscapeV2(date) + ReminderMiddle
    ensures Lex(front + [Backslash, '*', Backslash, '.'])
            == Lex(ReminderHead) + Literals(date) + Lex(ReminderMiddle) + [Text('*'), Text('.')]
  {
    ReminderPlain();
    TemplateBackslashName(ReminderHead, date, ReminderMiddle);
  }

  /** Any fixed text without backslashes, the escaped date, more such text and `\*\.`. */
  lemma TemplateBackslashName(head: string, date: string, middle: string)
    requires Backslash !in head && Backslash !in middle
    ensures Lex(head + EscapeV2(date) + middle + [Backslash, '*', Backslash, '.'])
            == Lex(head) + Literals(date) + Lex(middle) + [Text('*'), Text('.')]
  {
    var tail := [Backslash, '*', Backslash, '.'];
    BackslashTailLex();
    var empty: string := [];
    assert EscapeV2(empty) == empty;
    assert head + EscapeV2(date) + middle + EscapeV2(empty) + tail
           == head + EscapeV2(date) + middle + tail;
    TemplateMarkup(head, date, middle, empty, tail);
    assert Literals(empty) == [];
  }

  /** `\*\.` reads as a plain `*` and a plain `.`: no markup. */
  lemma BackslashTailLex()
    ensures Lex([Backslash, '*', Backslash, '.']) == [Text('*'), Text('.')]
  {
    LexEscapePair('.', []);
    assert [Backslash, '.'] == [Backslash, '.'] + [];
    LexEscapePair('*', [Backslash, '.']);
    assert [Backslash, '*', Backslash, '.'] == [Backslash, '*'] + [Backslash, '.'];
  }

  /** Weekday and month names hold no backslash. */
  lemma NamesHaveNoBackslash(w: int, m: int)
    requires 0 <= w < 7 && 1 <= m <= 12
    ensures Backslash !in WeekdayName(w) && Backslash !in MonthName(m)
  {
  }

  /** A padded number is digits, zeros and perhaps a minus sign. */
  lemma PadHasNoBackslash(n: int, width: nat)
    ensures Backslash !in PadInt(n, width)
  {
    var digits := if n < 0 then Digits(-n) else Digits(n);
    assert Backslash !in digits by {
      assert forall i :: 0 <= i < |digits| ==> IsDigit(digits[i]);
    }
    if |digits| < width {
      assert Backslash !in Zeros(width - |digits|);
    }
  }

  /** A date in the long layout holds no backslash. */
  lemma LongDateHasNoBackslash(n: int)
    ensures Backslash !in FormatLong(n)
  {
    CivilFromDaysValid(n);
    var c := CivilFromDays(n);
    FormatLongOf(n, c);
    NamesHaveNoBackslash(Weekday(n), c.month);
    PadHasNoBackslash(c.day, 2);
    PadHasNoBackslash(c.year, 4);
  }

  /**
   * The source's messages and the corrected ones are the same text whenever
   * the first name holds no backslash, which is why the slip shows only for
   * such names.
   */
  lemma CorrectedMessagesAgree(duty: Option<Duty>)
    requires duty.Some? && duty.value.user.Some? ==> Backslash !in duty.value.user.value.firstName
    ensures FormatDutyAssignedMessageV2(duty) == FormatDutyAssignedMessage(duty)
    ensures FormatDutyAutoAssignedMessageV2(duty) == FormatDutyAutoAssignedMessage(duty)
  {
    if duty.Some? && duty.value.user.Some? {
      var date, name := FormatLong(duty.value.date), duty.value.user.value.firstName;
      LongDateHasNoBackslash(duty.value.date);
      TextsAgree(date, name);
    }
  }

  lemma TextsAgree(date: string, name: string)
    requires Backslash !in date && Backslash !in name
    ensures ReminderV2(date, name) == Reminder(date, name)
    ensures AnnouncementV2(date, name) == Announcement(date, name)
  {
    EscapesAgree(date);
    EscapesAgree(name);
  }

  /** Text free of the characters to escape is left as it is. */
  lemma {:induction false} EscapeV2Plain(s: string)
    requires forall i :: 0 <= i < |s| ==> s[i] !in CharsToEscapeV2
    ensures EscapeV2(s) == s
  {
    if |s| > 0 {
      EscapeV2Plain(s[..|s| - 1]);
    }
  }

  lemma PaddedYear()
    ensures PadInt(2023, 4) == "2023"
  {
    PadFour(2023);
  }

  lemma PaddedDay27()
    ensures PadInt(27, 2) == "27"
  {
    PadTwo(27);
  }

  lemma PaddedDay28()
    ensures PadInt(28, 2) == "28"
  {
    PadTwo(28);
  }

  /** Friday 27 October 2023 in the long layout. */
  lemma FridayLong()
    ensures FormatLong(19657) == "Friday, 27 October 2023"
  {
    FridayExample();
    FormatLongOf(19657, Ymd(2023, 10, 27));
    assert WeekdayName(5) == "Friday" && MonthName(10) == "October";
    PaddedDay27();
    PaddedYear();
  }

  /** Saturday 28 October 2023 in the long layout. */
  lemma SaturdayLong()
    ensures FormatLong(19658) == "Saturday, 28 October 2023"
  {
    SaturdayExample();
    FormatLongOf(19658, Ymd(2023, 10, 28));
    assert WeekdayName(6) == "Saturday" && MonthName(10) == "October";
    PaddedDay28();
    PaddedYear();
  }

  /** Letters, digits, spaces and commas: the characters of dates and plain names. */
  predicate WordChar(c: char)
  {
    'a' <= c <= 'z' || 'A' <= c <= 'Z' || '0' <= c <= '9' || c == ' ' || c == ','
  }

  /** Letters, digits, spaces and commas are left as they are. */
  lemma EscapeWord(a: string)
    requires forall i :: 0 <= i < |a| ==> WordChar(a[i])
    ensures Escape(a) == a
  {
    forall i | 0 <= i < |a|
      ensures !Reserved(a[i])
    {
      assert WordChar(a[i]);
    }
    EscapePlain(a);
  }

  lemma ExampleDatesPlain()
    ensures Escape("Friday, 27 October 2023") == "Friday, 27 October 2023"
    ensures Escape("Saturday, 28 October 2023") == "Saturday, 28 October 2023"
  {
    EscapeWord("Friday, 27 October 2023");
    EscapeWord("Saturday, 28 October 2023");
  }

  lemma NamesPlain()
    ensures Escape("John") == "John" && Escape("Jane") == "Jane"
  {
    EscapePlain("John");
    EscapePlain("Jane");
  }

  /**
   * The reminder for John's duty on Friday 27 October 2023; the expected
   * text is split where the date and the name are spliced in.
   */
  lemma ReminderExample(d: Duty)
    requires d.date == 19657 && d.user.Some? && d.user.value.firstName == "John"
    ensures FormatDutyAssignedMessage(Some(d))
            == "🔔 *Duty Reminder* 🔔\n\nTomorrow, *" + "Friday, 27 October 2023"
               + "*, the duty is assigned to *" + "John" + "*\\."
  {
    FridayLong();
    ExampleDatesPlain();
    NamesPlain();
    assert FormatDutyAssignedMessage(Some(d)) == Reminder(FormatLong(19657), "John");
  }

  /** The announcement for Jane's duty on Saturday 28 October 2023, split the same way. */
  lemma AutoAssignedExample(d: Duty)
    requires d.date == 19658 && d.user.Some? && d.user.value.firstName == "Jane"
    ensures FormatDutyAutoAssignedMessage(Some(d))
            == "📢 *Automatic Duty Assignment* 📢\n\n" + "No duty was scheduled for tomorrow" + "\\."
               + " The round" + "\\-" + "robin scheduler has assigned the duty for *"
               + "Saturday, 28 October 2023" + "* to *" + "Jane" + "*\\."
  {
    SaturdayLong();
    ExampleDatesPlain();
    NamesPlain();
    assert FormatDutyAutoAssignedMessage(Some(d)) == Announcement(FormatLong(19658), "Jane");
  }

  /** Text without reserved characters is left alone. */
  lemma EscapePlainExample()
    ensures Escape("Hello world") == "Hello world"
  {
    EscapePlain("Hello world");
  }

  /** A reserved character between plain words gets its backslash, the markup character for bold too. */
  lemma EscapeSpliceExamples()
    ensures Escape("hello" + "_" + "world") == "hello" + "\\_" + "world"
    ensures Escape("hello" + "*" + "world") == "hello" + "\\*" + "world"
  {
    EscapeSplice("hello", '_', "world");
    EscapeSplice("hello", '*', "world");
  }

  /** Escaping a text piece by piece. */
  lemma EscapeAppend(x: string, piece: string)
    ensures Escape(x + piece) == Escape(x) + Escape(piece)
  {
    EscapeInAppend(x, piece, ReservedSet());
  }

  /** A reserved character on its own gets its backslash. */
  lemma EscapeReservedChar(c: char)
    requires Reserved(c)
    ensures Escape([c]) == [Backslash, c]
  {
    EscapeOne(c, ReservedSet());
  }

  lemma SentenceWordsPlain()
    ensures Escape("This is a test") == "This is a test" && Escape("important") == "important"
  {
    EscapeWord("This is a test");
    EscapeWord("important");
  }

  lemma ShortWordsPlain()
    ensures Escape(" ") == " " && Escape("v1") == "v1" && Escape("0") == "0"
  {
    EscapeWord(" ");
    EscapeWord("v1");
    EscapeWord("0");
  }

  /**
   * A sentence with a full stop, parentheses, a version number and a hash
   * sign; both texts are split where a reserved character stands.
   */
  lemma EscapeSentenceExample()
    ensures Escape("This is a test" + "." + " " + "(" + "v1" + "." + "0" + ")" + " " + "#" + "important")
            == "This is a test" + "\\." + " " + "\\(" + "v1" + "\\." + "0" + "\\)" + " " + "\\#" + "important"
  {
    SentenceWordsPlain();
    ShortWordsPlain();
    EscapeReservedChar('.');
    EscapeReservedChar('(');
    EscapeReservedChar(')');
    EscapeReservedChar('#');
    var s := "This is a test";
    EscapeAppend(s, "."); s := s + ".";
    EscapeAppend(s, " "); s := s + " ";
    EscapeAppend(s, "("); s := s + "(";
    EscapeAppend(s, "v1"); s := s + "v1";
    EscapeAppend(s, "."); s := s + ".";
    EscapeAppend(s, "0"); s := s + "0";
    EscapeAppend(s, ")"); s := s + ")";
    EscapeAppend(s, " "); s := s + " ";
    EscapeAppend(s, "#"); s := s + "#";
    EscapeAppend(s, "important");
  }

  lemma EscapeFirstHalf()
    ensures Escape("_" + "*" + "[" + "]" + "(" + ")" + "~" + "`" + ">" + "#")
            == "\\_" + "\\*" + "\\[" + "\\]" + "\\(" + "\\)" + "\\~" + "\\`" + "\\>" + "\\#"
  {
    var s := "_";
    EscapeReservedChar('_');
    EscapeAppend(s, "*"); s := s + "*"; EscapeReservedChar('*');
    EscapeAppend(s, "["); s := s + "["; EscapeReservedChar('[');
    EscapeAppend(s, "]"); s := s + "]"; EscapeReservedChar(']');
    EscapeAppend(s, "("); s := s + "("; EscapeReservedChar('(');
    EscapeAppend(s, ")"); s := s + ")"; EscapeReservedChar(')');
    EscapeAppend(s, "~"); s := s + "~"; EscapeReservedChar('~');
    EscapeAppend(s, "`"); s := s + "`"; EscapeReservedChar('`');
    EscapeAppend(s, ">"); s := s + ">"; EscapeReservedChar('>');
    EscapeAppend(s, "#"); s := s + "#"; EscapeReservedChar('#');
  }

  /** Every reserved character, in order, each gets its backslash. */
  lemma EscapeAllExample()
    ensures Escape("_" + "*" + "[" + "]" + "(" + ")" + "~" + "`" + ">" + "#" + "+" + "-" + "=" + "|" + "{" + "}" + "." + "!")
            == "\\_" + "\\*" + "\\[" + "\\]" + "\\(" + "\\)" + "\\~" + "\\`" + "\\>"
               + "\\#" + "\\+" + "\\-" + "\\=" + "\\|" + "\\{" + "\\}" + "\\." + "\\!"
  {
    EscapeFirstHalf();
    var s := "_" + "*" + "[" + "]" + "(" + ")" + "~" + "`" + ">" + "#";
    EscapeAppend(s, "+"); s := s + "+"; EscapeReservedChar('+');
    EscapeAppend(s, "-"); s := s + "-"; EscapeReservedChar('-');
    EscapeAppend(s, "="); s := s + "="; EscapeReservedChar('=');
    EscapeAppend(s, "|"); s := s + "|"; EscapeReservedChar('|');
    EscapeAppend(s, "{"); s := s + "{"; EscapeReservedChar('{');
    EscapeAppend(s, "}"); s := s + "}"; EscapeReservedChar('}');
    EscapeAppend(s, "."); s := s + "."; EscapeReservedChar('.');
    EscapeAppend(s, "!"); s := s + "!"; EscapeReservedChar('!');
  }

  /** One reserved character between two plain texts. */
  lemma EscapeSplice(a: string, c: char, b: string)
    requires forall i :: 0 <= i < |a| ==> !Reserved(a[i])
    requires forall i :: 0 <= i < |b| ==> !Reserved(b[i])
    requires Reserved(c)
    ensures Escape(a + [c] + b) == a + [Backslash, c] + b
  {
    EscapePlain(a);
    EscapePlain(b);
    EscapeInAppend(a + [c], b, ReservedSet());
    EscapeInAppend(a, [c], ReservedSet());
    assert [c][..0] == [];
  }
}
