/**
 * The text protocol of the chat relay: how a raw read becomes a line, how a
 * line is classified as a command, the exact reply and announcement texts,
 * the framing the writer puts on the wire, and the shape of the `who` reply.
 * Everything here is pure.
 */
module Protocol {

  datatype Option<T> = None | Some(value: T)

  // ---------------------------------------------------------------------
  // Field splitting (Go's strings.Split with a one-character separator)
  // ---------------------------------------------------------------------

  /** The fields of `s` between occurrences of `sep`; never empty, and no field holds `sep`. */
  function Split(s: string, sep: char): (fields: seq<string>)
    ensures |fields| >= 1
    ensures forall i :: 0 <= i < |fields| ==> sep !in fields[i]
    decreases |s|
  {
    if |s| == 0 then [""]
    else
      var rest := Split(s[1..], sep);
      if s[0] == sep then [""] + rest
      else [[s[0]] + rest[0]] + rest[1..]
  }

  /** The inverse of Split: the fields glued back together with `sep`. */
  function Join(fields: seq<string>, sep: char): string
    requires |fields| >= 1
  {
    if |fields| == 1 then fields[0]
    else fields[0] + [sep] + Join(fields[1..], sep)
  }

  /** Splitting and joining again gives back the original text. */
  lemma {:induction false} JoinSplit(s: string, sep: char)
    ensures Join(Split(s, sep), sep) == s
    decreases |s|
  {
    if |s| > 0 {
      var rest := Split(s[1..], sep);
      JoinSplit(s[1..], sep);
      if s[0] == sep {
        assert Split(s, sep) == [""] + rest;
        assert ([""] + rest)[1..] == rest;
        assert [s[0]] + s[1..] == s;
      } else {
        var fields := Split(s, sep);
        assert fields == [[s[0]] + rest[0]] + rest[1..];
        if |rest| == 1 {
          assert [s[0]] + s[1..] == s;
        } else {
          assert fields[1..] == rest[1..];
          assert Join(rest, sep) == rest[0] + [sep] + Join(rest[1..], sep);
          assert Join(fields, sep) == [s[0]] + rest[0] + [sep] + Join(rest[1..], sep);
          assert [s[0]] + s[1..] == s;
        }
      }
    }
  }

  /** A text without the separator is a single field. */
  lemma {:induction false} SplitNoSep(p: string, sep: char)
    requires sep !in p
    ensures Split(p, sep) == [p]
    decreases |p|
  {
    if |p| > 0 {
      SplitNoSep(p[1..], sep);
      assert [p[0]] + p[1..] == p;
    }
  }

  /** A separator-free prefix followed by the separator is the first field. */
  lemma {:induction false} SplitField(p: string, sep: char, t: string)
    requires sep !in p
    ensures Split(p + [sep] + t, sep) == [p] + Split(t, sep)
    decreases |p|
  {
    var s := p + [sep] + t;
    if |p| == 0 {
      assert s[0] == sep && s[1..] == t;
    } else {
      assert s[0] == p[0] && s[1..] == p[1..] + [sep] + t;
      SplitField(p[1..], sep, t);
      assert [p[0]] + p[1..] == p;
    }
  }

  /** Joining separator-free fields and splitting again gives back the fields. */
  lemma {:induction false} SplitJoin(fields: seq<string>, sep: char)
    requires |fields| >= 1
    requires forall i :: 0 <= i < |fields| ==> sep !in fields[i]
    ensures Split(Join(fields, sep), sep) == fields
    decreases |fields|
  {
    if |fields| == 1 {
      SplitNoSep(fields[0], sep);
    } else {
      SplitJoin(fields[1..], sep);
      SplitField(fields[0], sep, Join(fields[1..], sep));
      assert [fields[0]] + fields[1..] == fields;
    }
  }

  // ---------------------------------------------------------------------
  // Reader: one read becomes one line
  // ---------------------------------------------------------------------

  /** The error half of a read: none, end of stream, or any other failure. */
  datatype ReadError = NoError | EndOfStream | OtherError

  /** What the reader loop does with one read. */
  datatype ReadEvent =
    | Disconnected            // zero-length read: the user goes offline
    | ReaderFailed            // a non-EOF error with data: the reader stops, no teardown
    | Received(line: string)  // the read without its last character

  function ExtractLine(chunk: string, err: ReadError): (e: ReadEvent)
    ensures e == Disconnected <==> |chunk| == 0
    ensures e == ReaderFailed <==> |chunk| > 0 && err == OtherError
    ensures e.Received? ==> |e.line| == |chunk| - 1 && e.line + [chunk[|chunk| - 1]] == chunk
  {
    if |chunk| == 0 then Disconnected
    else if err == OtherError then ReaderFailed
    else Received(chunk[..|chunk| - 1])
  }

  /** A line sent with its newline in one read comes back out as that line. */
  lemma ExtractFramedLine(line: string, err: ReadError)
    requires err != OtherError
    ensures ExtractLine(line + "\n", err) == Received(line)
  {
  }

  // ---------------------------------------------------------------------
  // Commands
  // ---------------------------------------------------------------------

  datatype Command =
    | Who
    | Rename(newName: string)
    | Private(target: string, content: Option<string>)  // content is None when there is no third field
    | Public(text: string)

  /** The number of bytes UTF-8 needs for one character. */
  function CharUtf8Len(ch: char): (n: nat)
    ensures 1 <= n <= 4
    ensures n == 1 <==> (ch as int) < 0x80
  {
    if (ch as int) < 0x80 then 1
    else if (ch as int) < 0x800 then 2
    else if (ch as int) < 0x10000 then 3
    else 4
  }

  /** Go's `len` of a string: its length in bytes, in UTF-8. */
  function Utf8Len(s: string): (n: nat)
    ensures |s| <= n <= 4 * |s|
  {
    if s == [] then 0 else CharUtf8Len(s[0]) + Utf8Len(s[1..])
  }

  /** Byte lengths add up over concatenation. */
  lemma {:induction false} Utf8LenAppend(a: string, b: string)
    ensures Utf8Len(a + b) == Utf8Len(a) + Utf8Len(b)
  {
    if a == [] {
      assert a + b == b;
    } else {
      assert (a + b)[0] == a[0] && (a + b)[1..] == a[1..] + b;
      Utf8LenAppend(a[1..], b);
    }
  }

  /** An ASCII string is one byte per character. */
  lemma {:induction false} AsciiUtf8Len(s: string)
    requires forall i :: 0 <= i < |s| ==> (s[i] as int) < 0x80
    ensures Utf8Len(s) == |s|
  {
    if s != [] {
      AsciiUtf8Len(s[1..]);
    }
  }

  /**
   * The dispatch tests of the full server, in their order. The length tests
   * count bytes, as Go's `len` does; the prefixes are ASCII, so a byte prefix
   * `rename|` or `to|` is the same as a character prefix (the `|msg| >= n`
   * conjuncts only make the slices well defined and exclude nothing).
   */
  function ParseLine(msg: string): (c: Command)
    ensures c == Who <==> msg == "who"
    ensures c.Rename? <==> Utf8Len(msg) > 7 && |msg| >= 7 && msg[..7] == "rename|"
    ensures c.Rename? ==> c.newName == msg[7..] && c.newName != ""
    ensures c.Private? <==> Utf8Len(msg) > 4 && |msg| >= 3 && msg[..3] == "to|"
    ensures c.Private? ==> '|' !in c.target && (c.content.Some? ==> '|' !in c.content.value)
    ensures c.Public? <==> !c.Who? && !c.Rename? && !c.Private?
    ensures c.Public? ==> c.text == msg
  {
    if msg == "who" then Who
    else if Utf8Len(msg) > 7 && |msg| >= 7 && msg[..7] == "rename|" then
      assert msg == msg[..7] + msg[7..];
      Utf8LenAppend(msg[..7], msg[7..]);
      AsciiUtf8Len(msg[..7]);
      Rename(msg[7..])
    else if Utf8Len(msg) > 4 && |msg| >= 3 && msg[..3] == "to|" then
      var fields := Split(msg, '|');
      assert msg == "to" + ['|'] + msg[3..];
      SplitField("to", '|', msg[3..]);
      Private(fields[1], if |fields| > 2 then Some(fields[2]) else None)
    else Public(msg)
  }

  /** The dispatch of the older server: only `who` is a command. */
  function LegacyParseLine(msg: string): (c: Command)
    ensures c == Who || c == Public(msg)
  {
    if msg == "who" then Who else Public(msg)
  }

  /** The older dispatcher agrees with the full one on `who` and broadcasts every other line as it is. */
  lemma LegacyIsRestricted(msg: string)
    ensures LegacyParseLine(msg) == Who <==> ParseLine(msg) == Who
    ensures LegacyParseLine(msg) != Who ==> LegacyParseLine(msg) == Public(msg)
  {
  }

  /** `rename|` with a non-empty remainder renames to exactly that remainder. */
  lemma ParseRename(newName: string)
    requires |newName| > 0
    ensures ParseLine("rename|" + newName) == Rename(newName)
  {
  }

  /**
   * The bare prefix `rename|`, and `to|` followed by one ASCII character, are
   * too short to be commands: they are broadcast.
   */
  lemma ShortPrefixesArePublic(msg: string)
    requires msg == "rename|" || (|msg| == 4 && msg[..3] == "to|" && (msg[3] as int) < 0x80)
    ensures ParseLine(msg) == Public(msg)
  {
    if msg != "rename|" {
      assert msg == msg[..3] + [msg[3]];
      Utf8LenAppend(msg[..3], [msg[3]]);
      AsciiUtf8Len(msg[..3]);
    }
  }

  /**
   * `to|` followed by one character outside ASCII is at least five bytes long,
   * so it passes the length test and addresses that one-character name.
   */
  lemma ParsePrivateOneWideChar(ch: char)
    requires (ch as int) >= 0x80
    ensures ParseLine("to|" + [ch]) == Private([ch], None)
  {
    ParsePrivateWithoutContent([ch]);
  }

  /** A line that passes the `to|` test is addressed by the fields after `to|`. */
  lemma ParsePrivate(msg: string)
    requires Utf8Len(msg) > 4 && |msg| >= 3 && msg[..3] == "to|"
    ensures var after := Split(msg[3..], '|');
      ParseLine(msg) == Private(after[0], if |after| > 1 then Some(after[1]) else None)
  {
    assert msg[0] == 't';
    assert msg == "to" + ['|'] + msg[3..];
    SplitField("to", '|', msg[3..]);
  }

  /** `to|T|C` followed by nothing or by a further `|...` addresses T with content exactly C. */
  lemma ParsePrivateFields(target: string, content: string, rest: string)
    requires '|' !in target && '|' !in content
    requires rest == [] || rest[0] == '|'
    requires |target| + |content| + |rest| > 0
    ensures ParseLine("to|" + target + "|" + content + rest) == Private(target, Some(content))
  {
    var msg := "to|" + target + "|" + content + rest;
    var tail := content + rest;
    assert msg[..3] == "to|";
    assert msg[3..] == target + ['|'] + tail;
    SplitField(target, '|', tail);
    if rest == [] {
      assert tail == content;
      SplitNoSep(content, '|');
    } else {
      assert tail == content + ['|'] + rest[1..];
      SplitField(content, '|', rest[1..]);
    }
    ParsePrivate(msg);
  }

  /** `to|T` with no second `|` and `T` of two bytes or more addresses T but carries no content field. */
  lemma ParsePrivateWithoutContent(target: string)
    requires '|' !in target && Utf8Len(target) >= 2
    ensures ParseLine("to|" + target) == Private(target, None)
  {
    var msg := "to|" + target;
    assert msg[..3] == "to|" && msg[3..] == target;
    Utf8LenAppend("to|", target);
    assert Utf8Len("to|") == 3;
    SplitNoSep(target, '|');
    ParsePrivate(msg);
  }

  // ---------------------------------------------------------------------
  // Texts the server produces
  // ---------------------------------------------------------------------

  /** What BroadCast queues: `[addr]name text`. */
  function Announce(addr: string, name: string, text: string): string
  {
    "[" + addr + "]" + name + " " + text
  }

  const OnlineText := "已上线"
  const OfflineText := "下线"
  const NameTakenReply := "当前用户名已被使用\n"
  const BadFormatReply := "消息格式不正确，请使用\"to|张三|你好呀\""
  const NoSuchUserReply := "该用户不存在\n"
  const TimeoutNotice := "你已超时离线了"

  function RenamedReply(newName: string): string
  {
    "您已更新用户名：" + newName + "\n"
  }

  function PrivateText(sender: string, content: string): string
  {
    "[私聊]" + sender + ": " + content
  }

  // ---------------------------------------------------------------------
  // Writer framing
  // ---------------------------------------------------------------------

  /** The bytes the writer puts on the wire for a run of mailbox messages. */
  function Framed(msgs: seq<string>): string
  {
    if msgs == [] then "" else msgs[0] + "\n" + Framed(msgs[1..])
  }

  lemma {:induction false} FramedAppend(a: seq<string>, b: seq<string>)
    ensures Framed(a + b) == Framed(a) + Framed(b)
    decreases |a|
  {
    if a == [] {
      assert a + b == b;
    } else {
      assert (a + b)[0] == a[0] && (a + b)[1..] == a[1..] + b;
      FramedAppend(a[1..], b);
    }
  }

  /** Messages without newlines can be read back off the wire, in order. */
  lemma {:induction false} SplitFramed(msgs: seq<string>)
    requires forall i :: 0 <= i < |msgs| ==> '\n' !in msgs[i]
    ensures Split(Framed(msgs), '\n') == msgs + [""]
    decreases |msgs|
  {
    if msgs != [] {
      SplitFramed(msgs[1..]);
      SplitField(msgs[0], '\n', Framed(msgs[1..]));
      assert msgs[0] + "\n" + Framed(msgs[1..]) == msgs[0] + ['\n'] + Framed(msgs[1..]);
      assert [msgs[0]] + (msgs[1..] + [""]) == msgs + [""];
    }
  }

  // ---------------------------------------------------------------------
  // The `who` reply
  // ---------------------------------------------------------------------

  function OnlineLine(addr: string, name: string): string
  {
    "[" + addr + "]" + name + " 在线..." + "\n"
  }

  /** The lines for `names`, in that order; `view` maps a name to its address. */
  function OnlineList(names: seq<string>, view: map<string, string>): string
    requires forall i :: 0 <= i < |names| ==> names[i] in view
  {
    if names == [] then "" else OnlineLine(view[names[0]], names[0]) + OnlineList(names[1..], view)
  }

  lemma {:induction false} OnlineListAppend(names: seq<string>, n: string, view: map<string, string>)
    requires forall i :: 0 <= i < |names| ==> names[i] in view
    requires n in view
    ensures OnlineList(names + [n], view) == OnlineList(names, view) + OnlineLine(view[n], n)
    decreases |names|
  {
    if names != [] {
      assert (names + [n])[1..] == names[1..] + [n];
      OnlineListAppend(names[1..], n, view);
    }
  }

  ghost predicate Distinct(names: seq<string>)
  {
    forall i, j :: 0 <= i < j < |names| ==> names[i] != names[j]
  }

  /** `names` lists every registered name exactly once, in some order. */
  ghost predicate Enumerates(names: seq<string>, view: map<string, string>)
  {
    Distinct(names) && forall n :: n in view <==> n in names
  }

  /** `s` is the `who` reply for `view` under some iteration order of the map. */
  ghost predicate IsSnapshot(s: string, view: map<string, string>)
  {
    exists names :: Enumerates(names, view) && s == OnlineList(names, view)
  }

  lemma {:induction false} DistinctCard(names: seq<string>)
    requires Distinct(names)
    ensures |set n | n in names| == |names|
    decreases |names|
  {
    if names != [] {
      var tail := names[1..];
      assert Distinct(tail) by {
        forall i, j | 0 <= i < j < |tail| ensures tail[i] != tail[j] {
          assert tail[i] == names[i + 1] && tail[j] == names[j + 1];
        }
      }
      DistinctCard(tail);
      assert (set n | n in names) == {names[0]} + (set n | n in tail);
      assert names[0] !in (set n | n in tail) by {
        forall j | 0 <= j < |tail| ensures tail[j] != names[0] {
          assert tail[j] == names[j + 1];
        }
      }
    }
  }

  /** The reply has one line per registered user: its enumeration is as long as the registry. */
  lemma EnumerationSize(names: seq<string>, view: map<string, string>)
    requires Enumerates(names, view)
    ensures |names| == |view|
  {
    DistinctCard(names);
    assert (set n | n in names) == view.Keys;
  }

  /** With nobody online the reply is empty, and only then. */
  lemma SnapshotOfEmpty(s: string)
    ensures IsSnapshot(s, map[]) <==> s == ""
  {
    if s == "" {
      assert Enumerates([], map[]) && s == OnlineList([], map[]);
    }
    if IsSnapshot(s, map[]) {
      var names :| Enumerates(names, map[]) && s == OnlineList(names, map[]);
      EnumerationSize(names, map[]);
    }
  }

  /** Whatever the registry, the reply is empty exactly when nobody is online. */
  lemma EmptyReplyOnlyWhenNobody(s: string, view: map<string, string>)
    requires IsSnapshot(s, view)
    ensures s == "" <==> view == map[]
  {
    var names :| Enumerates(names, view) && s == OnlineList(names, view);
    EnumerationSize(names, view);
    if names != [] {
      assert names[0] in view;
      assert |OnlineLine(view[names[0]], names[0])| > 0;
      assert |s| > 0;
    }
  }

  /** With one user online the reply is exactly that user's line. */
  lemma SnapshotOfSingle(s: string, name: string, addr: string)
    ensures IsSnapshot(s, map[name := addr]) <==> s == OnlineLine(addr, name)
  {
    var view := map[name := addr];
    if s == OnlineLine(addr, name) {
      assert OnlineList([name], view) == OnlineLine(addr, name) + OnlineList([], view);
      assert Enumerates([name], view);
    }
    if IsSnapshot(s, view) {
      var names :| Enumerates(names, view) && s == OnlineList(names, view);
      EnumerationSize(names, view);
      assert names[0] in view;
      assert names == [names[0]];
      assert OnlineList(names, view) == OnlineLine(addr, name) + OnlineList([], view);
    }
  }
}
