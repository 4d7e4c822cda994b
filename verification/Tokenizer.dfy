/** The console's command-line tokenizer (ElDorito/Source/CommandMap.cpp:402-485) and the quoted join whose output it
    reads back (CommandMap.cpp:97-104). */
module Tokenizer {
  import opened Text

  const QUOTE: char := '"'

  /** What separates arguments outside quotes. */
  predicate IsBlank(c: char) {
    c in {' ', '\t', '\n', '\r'}
  }

  /** The argument that starts at the front of `s`, and what follows it. Quotes toggle and are dropped. */
  function TakeArgument(s: string, inQuotes: bool): (r: (string, string))
    ensures |r.1| <= |s| && (s != "" ==> |r.1| < |s|)
  {
    if s == "" then ("", "")
    else if s[0] == QUOTE then TakeArgument(s[1..], !inQuotes)
    else if !inQuotes && IsBlank(s[0]) then ("", s[1..])
    else var (argument, rest) := TakeArgument(s[1..], inQuotes); ([s[0]] + argument, rest)
  }

  /** The arguments of a command line, one at a time. The loop of the source, below, instead copies characters into one
      shared area, ends each argument with a NUL and records offsets. */
  function Split(s: string): (arguments: seq<string>)
    decreases |s|
  {
    if s == "" then []
    else if IsBlank(s[0]) then Split(s[1..])
    else var (argument, rest) := TakeArgument(s, false); [argument] + Split(rest)
  }

  /** The NUL-terminated string that a pointer into the character area denotes. */
  function StringAt(area: seq<char>, offset: nat): string
    requires offset <= |area|
  {
    CStr(area[offset..])
  }

  // ----- Characters that no argument contains -----

  lemma {:induction false} TakenCharacters(s: string, inQuotes: bool)
    ensures var (argument, rest) := TakeArgument(s, inQuotes);
            QUOTE !in argument && (forall c <- argument :: c in s) && (forall c <- rest :: c in s)
  {
    if s != "" {
      if s[0] == QUOTE {
        TakenCharacters(s[1..], !inQuotes);
      } else if inQuotes || !IsBlank(s[0]) {
        TakenCharacters(s[1..], inQuotes);
      }
    }
  }

  /** Arguments are made of the line's own characters, and never contain a quote. */
  lemma {:induction false} ArgumentCharacters(s: string)
    ensures forall argument <- Split(s) :: QUOTE !in argument && forall c <- argument :: c in s
    decreases |s|
  {
    if s != "" {
      if IsBlank(s[0]) {
        ArgumentCharacters(s[1..]);
      } else {
        TakenCharacters(s, false);
        ArgumentCharacters(TakeArgument(s, false).1);
      }
    }
  }

  // ----- What separates arguments, and what does not -----

  /** Without blanks and quotes. */
  predicate OneWord(name: string) {
    forall i :: 0 <= i < |name| ==>
      name[i] != ' ' && name[i] != '\t' && name[i] != '\n' && name[i] != '\r' && name[i] != '"'
  }

  /** Characters up to a blank or a quote are taken as they are. */
  lemma {:induction false} TakeWord(name: string, rest: string)
    requires OneWord(name)
    ensures TakeArgument(name + rest, false) == (name + TakeArgument(rest, false).0, TakeArgument(rest, false).1)
  {
    var s := name + rest;
    if name == "" {
      assert s == rest && name + TakeArgument(rest, false).0 == TakeArgument(rest, false).0;
    } else {
      TakeWord(name[1..], rest);
      assert s[0] == name[0] && s[1..] == name[1..] + rest;
      assert [name[0]] + (name[1..] + TakeArgument(rest, false).0) == name + TakeArgument(rest, false).0;
    }
  }

  /** Inside quotes, everything else is taken as it is. */
  lemma {:induction false} TakeInQuotes(a: string, rest: string)
    requires QUOTE !in a
    ensures TakeArgument(a + rest, true) == (a + TakeArgument(rest, true).0, TakeArgument(rest, true).1)
  {
    var s := a + rest;
    if a == "" {
      assert s == rest && a + TakeArgument(rest, true).0 == TakeArgument(rest, true).0;
    } else {
      TakeInQuotes(a[1..], rest);
      assert s[0] == a[0] && s[1..] == a[1..] + rest;
      assert [a[0]] + (a[1..] + TakeArgument(rest, true).0) == a + TakeArgument(rest, true).0;
    }
  }

  /** Space, tab, newline and carriage return end an argument, and none starts between two of them. */
  lemma BlanksSeparate(name: string, blank: char, rest: string)
    requires OneWord(name) && blank in {' ', '\t', '\n', '\r'}
    ensures Split(name + [blank] + rest) == (if name == "" then [] else [name]) + Split(rest)
    ensures Split(name) == if name == "" then [] else [name]
  {
    var more := [blank] + rest;
    assert name + [blank] + rest == name + more && more[1..] == rest && name + "" == name;
    TakeWord(name, more);
    TakeWord(name, "");
    if name != "" {
      assert (name + more)[0] == name[0];
    }
  }

  /** Quoted text is part of the argument around it, blanks and all, even when the quote is never closed. */
  lemma QuotesGlue(name: string, a: string, tail: string, blank: char, rest: string)
    requires OneWord(name) && QUOTE !in a && OneWord(tail) && blank in {' ', '\t', '\n', '\r'}
    ensures Split(name + "\"" + a + "\"" + tail + [blank] + rest) == [name + a + tail] + Split(rest)
    ensures Split(name + "\"" + a) == [name + a]
  {
    var end := [blank] + rest;
    var closed := "\"" + (tail + end);
    var quoted := "\"" + (a + closed);
    assert name + "\"" + a + "\"" + tail + [blank] + rest == name + quoted;
    TakeWord(name, quoted);
    assert quoted[1..] == a + closed;
    TakeInQuotes(a, closed);
    assert closed[1..] == tail + end;
    TakeWord(tail, end);
    assert end[1..] == rest && tail + "" == tail;
    assert name + (a + tail) == name + a + tail;
    assert (name + quoted)[0] == if name == "" then QUOTE else name[0];
    OpenQuote(name, a);
  }

  lemma OpenQuote(name: string, a: string)
    requires OneWord(name) && QUOTE !in a
    ensures Split(name + "\"" + a) == [name + a]
  {
    var open := "\"" + a;
    assert name + "\"" + a == name + open && open[1..] == a + "" && a + "" == a;
    TakeWord(name, open);
    TakeInQuotes(a, "");
    assert (name + open)[0] == if name == "" then QUOTE else name[0];
  }

  // ----- The loop over the shared buffer -----

  /** Arguments laid out one after the other, each with its terminating NUL. */
  function Packed(arguments: seq<string>): string {
    if arguments == [] then ""
    else Packed(arguments[..|arguments| - 1]) + arguments[|arguments| - 1] + [NUL]
  }

  lemma {:induction false} PackedPrefix(arguments: seq<string>, k: nat)
    requires k < |arguments|
    ensures Packed(arguments[..k]) + arguments[k] + [NUL] <= Packed(arguments)
  {
    var last := |arguments| - 1;
    if k < last {
      PackedPrefix(arguments[..last], k);
      assert arguments[..last][..k] == arguments[..k];
    }
  }

  lemma {:induction false} CStrStopsAtNul(a: string, rest: string)
    requires NUL !in a
    ensures CStr(a + [NUL] + rest) == a
  {
    if a == "" {
      assert (a + [NUL] + rest)[0] == NUL;
    } else {
      CStrStopsAtNul(a[1..], rest);
      assert (a + [NUL] + rest)[1..] == a[1..] + [NUL] + rest;
      assert (a + [NUL] + rest)[0] == a[0];
    }
  }

  /** Offsets of packed arguments denote those arguments, whatever follows in the area. */
  lemma {:induction false} PackedReadsBack(arguments: seq<string>, area: seq<char>, k: nat)
    requires k < |arguments| && NUL !in arguments[k]
    requires Packed(arguments) <= area
    ensures |Packed(arguments[..k])| <= |area|
    ensures StringAt(area, |Packed(arguments[..k])|) == arguments[k]
  {
    PackedPrefix(arguments, k);
    var head, a := Packed(arguments[..k]), arguments[k];
    var rest := area[|head| + |a| + 1..];
    assert area[..|head| + |a| + 1] == head + a + [NUL];
    assert area[|head|..] == a + [NUL] + rest;
    CStrStopsAtNul(a, rest);
  }

  lemma OffsetReadsBack(arguments: seq<string>, area: seq<char>, offsets: seq<int>, k: nat)
    requires k < |arguments| && NUL !in arguments[k]
    requires Packed(arguments) <= area && OffsetsOf(offsets, arguments)
    ensures 0 <= offsets[k] < |area| && StringAt(area, offsets[k]) == arguments[k]
  {
    PackedPrefix(arguments, k);
    PackedReadsBack(arguments, area, k);
  }

  ghost predicate OffsetsOf(offsets: seq<int>, arguments: seq<string>) {
    |arguments| <= |offsets| &&
    forall k :: 0 <= k < |arguments| ==> offsets[k] == |Packed(arguments[..k])|
  }

  /** The arguments found so far and those still to come, at a point between two characters. */
  ghost predicate Progress(s: string, rest: string, inQuotes: bool, inSpace: bool, done: seq<string>, partial: string) {
    Split(s) == done +
      if inSpace then Split(rest)
      else [partial + TakeArgument(rest, inQuotes).0] + Split(TakeArgument(rest, inQuotes).1)
  }

  /** A character that belongs to the current argument, or starts one. */
  lemma ProgressByCharacter(s: string, rest: string, inQuotes: bool, inSpace: bool, done: seq<string>, partial: string)
    requires Progress(s, rest, inQuotes, inSpace, done, partial)
    requires rest != "" && rest[0] != QUOTE && (inQuotes || !IsBlank(rest[0])) && (inSpace ==> !inQuotes && partial == "")
    ensures Progress(s, rest[1..], inQuotes, false, done, partial + [rest[0]])
  {
    var t := TakeArgument(rest[1..], inQuotes);
    assert TakeArgument(rest, inQuotes) == ([rest[0]] + t.0, t.1);
    assert partial + ([rest[0]] + t.0) == (partial + [rest[0]]) + t.0;
    if inSpace {
      assert Split(rest) == [[rest[0]] + t.0] + Split(t.1);
      assert partial + ([rest[0]] + t.0) == [rest[0]] + t.0;
    }
  }

  /** A quote, which opens or closes and may start an argument. */
  lemma ProgressByQuote(s: string, rest: string, inQuotes: bool, inSpace: bool, done: seq<string>, partial: string)
    requires Progress(s, rest, inQuotes, inSpace, done, partial)
    requires rest != "" && rest[0] == QUOTE && (inSpace ==> !inQuotes && partial == "")
    ensures Progress(s, rest[1..], !inQuotes, false, done, partial)
  {
    if inSpace {
      assert partial + TakeArgument(rest, false).0 == TakeArgument(rest, false).0;
    }
  }

  /** A blank outside quotes, which ends the current argument if there is one. */
  lemma ProgressByBlank(s: string, rest: string, inSpace: bool, done: seq<string>, partial: string)
    requires Progress(s, rest, false, inSpace, done, partial)
    requires rest != "" && IsBlank(rest[0])
    ensures Progress(s, rest[1..], false, true, if inSpace then done else done + [partial], "")
  {
    if !inSpace {
      assert TakeArgument(rest, false) == ("", rest[1..]);
      assert done + ([partial + ""] + Split(rest[1..])) == (done + [partial]) + Split(rest[1..]) by {
        assert partial + "" == partial;
      }
    }
  }

  lemma ProgressAtEnd(s: string, inQuotes: bool, inSpace: bool, done: seq<string>, partial: string)
    requires Progress(s, "", inQuotes, inSpace, done, partial)
    ensures Split(s) == if inSpace then done else done + [partial]
  {
    assert partial + "" == partial;
    assert Split("") == [];
  }

  /** What the character area and the offsets hold at such a point. */
  ghost predicate Laid(area: seq<char>, offsets: seq<int>, inSpace: bool, done: seq<string>, partial: string) {
    && area == Packed(done) + partial
    && OffsetsOf(offsets, done)
    && (inSpace ==> partial == "")
    && (!inSpace ==> |done| < |offsets| && offsets[|done|] == |Packed(done)|)
  }

  lemma AtStart(s: string, offsets: seq<int>)
    ensures Progress(s, s, false, true, [], "") && Laid("", offsets, true, [], "")
  {
  }

  lemma LaidStart(area: seq<char>, offsets: seq<int>, done: seq<string>)
    requires Laid(area, offsets, true, done, "") && |done| < |offsets|
    ensures Laid(area, offsets[|done| := |area|], false, done, "")
  {
    assert area == Packed(done);
  }

  lemma LaidCharacter(area: seq<char>, offsets: seq<int>, done: seq<string>, partial: string, c: char)
    requires Laid(area, offsets, false, done, partial)
    ensures Laid(area + [c], offsets, false, done, partial + [c])
  {
    assert area + [c] == Packed(done) + (partial + [c]);
  }

  lemma LaidEnd(area: seq<char>, offsets: seq<int>, done: seq<string>, partial: string)
    requires Laid(area, offsets, false, done, partial)
    ensures Laid(area + [NUL], offsets, true, done + [partial], "")
  {
    var all := done + [partial];
    assert all[..|all| - 1] == done;
    forall k | 0 <= k < |all| ensures offsets[k] == |Packed(all[..k])| {
      if k < |done| {
        assert all[..k] == done[..k];
      }
    }
  }

  /** Once the last NUL and the null pointer are written, every argument can be read back. */
  lemma LaidReadsBack(text: seq<char>, offsets: seq<int>, inSpace: bool, done: seq<string>, partial: string,
                      area: seq<char>)
    requires Laid(text, offsets, inSpace, done, partial)
    requires text + [NUL] <= area
    requires forall argument <- (if inSpace then done else done + [partial]) :: NUL !in argument
    ensures AllReadBack(area, offsets, if inSpace then done else done + [partial])
  {
    var all := if inSpace then done else done + [partial];
    if !inSpace {
      LaidEnd(text, offsets, done, partial);
    }
    forall k | 0 <= k < |all|
      ensures k < |offsets| && 0 <= offsets[k] < |area| && StringAt(area, offsets[k]) == all[k]
    {
      OffsetReadsBack(all, area, offsets, k);
    }
  }

  ghost predicate AllReadBack(area: seq<char>, offsets: seq<int>, all: seq<string>) {
    forall k :: 0 <= k < |all| ==>
      k < |offsets| && 0 <= offsets[k] < |area| && StringAt(area, offsets[k]) == all[k]
  }

  /** Writes one character at the end of what the area holds so far. */
  method WriteChar(area: array<char>, j: nat, c: char)
    requires j < area.Length
    modifies area
    ensures area[..j + 1] == old(area[..j]) + [c]
  {
    area[j] := c;
  }

  /** Records where an argument starts. */
  method WritePointer(argv: array<int>, argc: nat, offset: int)
    requires argc < argv.Length
    modifies argv
    ensures argv[..] == old(argv[..])[argc := offset]
  {
    argv[argc] := offset;
  }

  /** Splits a command line. `argv` holds offsets into `area`; `argv[argc]` is the closing null pointer.

      The area and the pointer table are allocated with the sizes the source computes, and every write is in
      bounds. */
  method CommandLineToArgvA(line: string) returns (argv: array<int>, area: array<char>, argc: nat)
    ensures argc == |Split(CStr(line))| <= (|CStr(line)| + 1) / 2
    ensures area.Length == |CStr(line)| + 2 && argv.Length == (|CStr(line)| + 2) / 2 + 1
    ensures argc < argv.Length && argv[argc] == -1
    ensures forall k :: 0 <= k < argc ==>
              0 <= argv[k] < area.Length && StringAt(area[..], argv[k]) == Split(CStr(line))[k]
  {
    hide Progress, Laid, TakeArgument, Split, Packed, OffsetsOf, CStr, StringAt;
    var s := CStr(line);
    var len := |s|;
    area := new char[len + 2];
    argv := new int[(len + 2) / 2 + 1];
    argc := 0;
    var inQuotes, inText, inSpace := false, false, true;
    var i, j := 0, 0;
    ghost var done: seq<string>, partial, text, offsets := [], "", "", argv[..];
    assert s[0..] == s;
    AtStart(s, offsets);
    while i < len
      invariant 0 <= i <= len && 0 <= j <= i
      invariant inText == !inSpace && (inSpace ==> !inQuotes && partial == "")
      invariant argc == |done| + (if inSpace then 0 else 1)
      invariant if inSpace then 2 * argc <= i else 2 * argc <= i + 1
      invariant area[..j] == text && argv[..] == offsets
      invariant Laid(text, offsets, inSpace, done, partial)
      invariant Progress(s, s[i..], inQuotes, inSpace, done, partial)
    {
      var a := s[i];
      ghost var rest := s[i..];
      assert rest[0] == a && rest[1..] == s[i + 1..];
      if inQuotes {
        if a == QUOTE {
          ProgressByQuote(s, rest, inQuotes, inSpace, done, partial);
          inQuotes := false;
        } else {
          ProgressByCharacter(s, rest, inQuotes, inSpace, done, partial);
          LaidCharacter(text, offsets, done, partial, a);
          WriteChar(area, j, a);
          j := j + 1;
          text, partial := text + [a], partial + [a];
        }
      } else if a == QUOTE {
        ProgressByQuote(s, rest, inQuotes, inSpace, done, partial);
        inQuotes, inText := true, true;
        if inSpace {
          LaidStart(text, offsets, done);
          offsets := offsets[argc := j];
          WritePointer(argv, argc, j);
          argc := argc + 1;
        }
        inSpace := false;
      } else if IsBlank(a) {
        ProgressByBlank(s, rest, inSpace, done, partial);
        if inText {
          LaidEnd(text, offsets, done, partial);
          WriteChar(area, j, NUL);
          j := j + 1;
          text, done, partial := text + [NUL], done + [partial], "";
        }
        inText, inSpace := false, true;
      } else {
        ProgressByCharacter(s, rest, inQuotes, inSpace, done, partial);
        inText := true;
        if inSpace {
          LaidStart(text, offsets, done);
          offsets := offsets[argc := j];
          WritePointer(argv, argc, j);
          argc := argc + 1;
        }
        LaidCharacter(text, offsets, done, partial, a);
        WriteChar(area, j, a);
        j := j + 1;
        text, partial := text + [a], partial + [a];
        inSpace := false;
      }
      i := i + 1;
    }
    assert s[i..] == "";
    ProgressAtEnd(s, inQuotes, inSpace, done, partial);
    WriteChar(area, j, NUL);
    WritePointer(argv, argc, -1);
    assert text + [NUL] <= area[..] by {
      assert area[..j + 1] == text + [NUL];
    }
    ArgumentCharacters(s);
    LaidReadsBack(text, offsets, inSpace, done, partial, area[..]);
  }

  // ----- Reading back a quoted join -----

  /** The command line that executing a list of strings builds. */
  function QuotedJoin(arguments: seq<string>): string {
    if arguments == [] then "" else "\"" + arguments[0] + "\" " + QuotedJoin(arguments[1..])
  }

  /** The loop that builds it. */
  method JoinQuoted(arguments: seq<string>) returns (line: string)
    ensures line == QuotedJoin(arguments)
  {
    line := "";
    for i := 0 to |arguments|
      invariant line + QuotedJoin(arguments[i..]) == QuotedJoin(arguments)
    {
      assert arguments[i..][1..] == arguments[i + 1..];
      line := line + ("\"" + arguments[i] + "\" ");
    }
  }

  predicate Quotable(argument: string) {
    QUOTE !in argument && NUL !in argument
  }

  /** Inside quotes everything up to the closing quote is one argument. */
  lemma {:induction false} TakeQuoted(a: string, rest: string)
    requires QUOTE !in a && (rest != "" ==> IsBlank(rest[0]))
    ensures TakeArgument(a + "\"" + rest, true) == (a, if rest == "" then "" else rest[1..])
  {
    var s := a + "\"" + rest;
    if a == "" {
      assert s[0] == QUOTE && s[1..] == rest;
    } else {
      TakeQuoted(a[1..], rest);
      assert s[0] == a[0] && s[1..] == a[1..] + "\"" + rest;
      assert [a[0]] + a[1..] == a;
    }
  }

  lemma {:induction false} QuotableJoinReadsBack(arguments: seq<string>)
    requires forall a <- arguments :: Quotable(a)
    ensures NUL !in QuotedJoin(arguments) && Split(QuotedJoin(arguments)) == arguments
  {
    if arguments != [] {
      var a, rest := arguments[0], QuotedJoin(arguments[1..]);
      QuotableJoinReadsBack(arguments[1..]);
      var s := QuotedJoin(arguments);
      assert Quotable(a);
      assert s[0] == QUOTE && s[1..] == a + "\"" + (" " + rest);
      TakeQuoted(a, " " + rest);
      assert (" " + rest)[1..] == rest;
    }
  }

  /** Executing a list of strings through one line gives the tokenizer back exactly that list if and only if no
      string holds a quote or a NUL. */
  lemma JoinReadsBackIff(arguments: seq<string>)
    ensures Split(CStr(QuotedJoin(arguments))) == arguments <==> forall a <- arguments :: Quotable(a)
  {
    if forall a <- arguments :: Quotable(a) {
      QuotableJoinReadsBack(arguments);
    }
    ArgumentCharacters(CStr(QuotedJoin(arguments)));
  }

  // ----- Facts that the printers rely on -----

  predicate Plain(name: string) {
    forall c <- name :: !IsBlank(c) && c != QUOTE && c != NUL
  }

  lemma {:induction false} TakePlain(name: string, rest: string)
    requires Plain(name) && (rest != "" ==> IsBlank(rest[0]))
    ensures TakeArgument(name + rest, false) == (name, if rest == "" then "" else rest[1..])
  {
    var s := name + rest;
    if name == "" {
      assert s == rest;
    } else {
      assert forall c <- name[1..] :: c in name;
      TakePlain(name[1..], rest);
      assert s[0] == name[0] && s[1..] == name[1..] + rest;
      assert [name[0]] + name[1..] == name;
    }
  }

  lemma SplitPlain(name: string, rest: string)
    requires name != "" && Plain(name)
    ensures Split(name + " " + rest) == [name] + Split(rest)
  {
    TakePlain(name, " " + rest);
    assert name + " " + rest == name + (" " + rest);
    assert (name + (" " + rest))[0] == name[0];
    assert (" " + rest)[1..] == rest;
  }

  lemma SplitQuoted(a: string, rest: string)
    requires QUOTE !in a && (rest != "" ==> IsBlank(rest[0]))
    ensures Split("\"" + a + "\"" + rest) == [a] + Split(rest)
  {
    var s := "\"" + a + "\"" + rest;
    assert s[0] == QUOTE && s[1..] == a + "\"" + rest;
    TakeQuoted(a, rest);
    if rest != "" {
      assert Split(rest) == Split(rest[1..]);
    }
  }
}
