/** The ban list, printed and parsed (ElDorito/Source/Server/BanList.cpp:48-98 and Utils/String.cpp:236-281).

    The printed text starts with a header of comment lines and lists one address on a line; the parser drops comments,
    splits a line at its spaces, and takes the word after "ip" for an address. */
module BanList {
  import opened Text
  import opened Collections

  const COMMENT: char := '#'

  // ----- Reading a line -----

  /** The line up to a comment. */
  function Uncommented(line: string): (r: string)
    ensures r <= line && COMMENT !in r
    ensures COMMENT !in line ==> r == line
  {
    if line == "" || line[0] == COMMENT then "" else [line[0]] + Uncommented(line[1..])
  }

  function TrimStart(s: string): (r: string)
    ensures |r| <= |s| && r == s[|s| - |r|..]
    ensures s != "" && !IsSpace(s[0]) ==> r == s
  {
    if s != "" && IsSpace(s[0]) then TrimStart(s[1..]) else s
  }

  function TrimEnd(s: string): (r: string)
    ensures r <= s && (r != "" ==> !IsSpace(r[|r| - 1]))
    ensures s != "" && !IsSpace(s[|s| - 1]) ==> r == s
  {
    if s != "" && IsSpace(s[|s| - 1]) then TrimEnd(s[..|s| - 1]) else s
  }

  /** The addresses and the identifiers that are banned. */
  datatype Bans = Bans(ips: set<string>, uids: set<int>)

  const NO_BANS: Bans := Bans({}, {})

  function Components(line: string): seq<string> {
    Pieces(TrimEnd(TrimStart(Uncommented(line))), ' ')
  }

  /** What a line adds. `parseUid` is the parser of identifiers. */
  function ReadLine(bans: Bans, line: string, parseUid: string -> Option<int>): Bans {
    ReadParts(bans, Components(line), parseUid)
  }

  function ReadParts(bans: Bans, parts: seq<string>, parseUid: string -> Option<int>): Bans {
    if |parts| < 2 then bans
    else if parts[0] == "ip" then bans.(ips := bans.ips + {parts[1]})
    else if parts[0] == "uid" && parseUid(parts[1]).Some? then bans.(uids := bans.uids + {parseUid(parts[1]).value})
    else bans
  }

  function ReadLines(bans: Bans, lines: seq<string>, parseUid: string -> Option<int>): Bans
    decreases |lines|
  {
    if lines == [] then bans else ReadLines(ReadLine(bans, lines[0], parseUid), lines[1..], parseUid)
  }

  function Read(bans: Bans, text: string, parseUid: string -> Option<int>): Bans {
    ReadLines(bans, Lines(text), parseUid)
  }

  // ----- Printing -----

  function Header(): seq<string> {
    [ListTitle(), FilterNote() + FilterEffect() + FilterObject(), "", IpTitle(), IpFormat()]
  }

  function ListTitle(): string {
    "# ElDewrito server ban list"
  }

  function FilterNote(): string {
    "# Players matching the filters in this file"
  }

  function FilterEffect(): string {
    " will not be allowed"
  }

  function FilterObject(): string {
    " to connect to your server."
  }

  function IpTitle(): string {
    "# IPv4 address bans"
  }

  function IpFormat(): string {
    "# Format: ip XXX.XXX.XXX.XXX"
  }

  function Unlines(lines: seq<string>): string {
    if lines == [] then "" else lines[0] + "\n" + Unlines(lines[1..])
  }

  function IpLine(ip: string): string {
    "ip " + ip
  }

  /** The lines of the addresses, in some order. */
  function IpLines(ips: seq<string>): seq<string> {
    if ips == [] then [] else [IpLine(ips[0])] + IpLines(ips[1..])
  }

  function Save(ips: seq<string>): string {
    Unlines(Header()) + Unlines(IpLines(ips))
  }

  // ----- What can be read -----

  /** An address that ends up whole on a line of its own. */
  predicate OneWord(ip: string) {
    ' ' !in ip && COMMENT !in ip && NEWLINE !in ip
  }

  /** An address that survives: and does not lose a tab or the like at its end. */
  predicate Printable(ip: string) {
    ip != "" && OneWord(ip) && !IsSpace(ip[|ip| - 1])
  }

  /** Every address that any text adds is one word. */
  lemma ReadLineAddsWords(bans: Bans, line: string, parseUid: string -> Option<int>)
    requires NEWLINE !in line
    ensures forall ip <- ReadLine(bans, line, parseUid).ips :: ip in bans.ips || OneWord(ip)
  {
    var trimmed := TrimEnd(TrimStart(Uncommented(line)));
    PiecesAreClean(trimmed, ' ');
    forall c | c in trimmed ensures c in line && c != COMMENT {
      assert c in TrimStart(Uncommented(line));
      assert c in Uncommented(line);
    }
    forall part | part in Components(line) ensures OneWord(part) {
    }
  }

  lemma {:induction false} ReadLinesAddWords(bans: Bans, lines: seq<string>, parseUid: string -> Option<int>)
    requires forall line <- lines :: NEWLINE !in line
    ensures forall ip <- ReadLines(bans, lines, parseUid).ips :: ip in bans.ips || OneWord(ip)
    decreases |lines|
  {
    if lines != [] {
      ReadLineAddsWords(bans, lines[0], parseUid);
      ReadLinesAddWords(ReadLine(bans, lines[0], parseUid), lines[1..], parseUid);
    }
  }

  lemma DropLast(a: string, b: string)
    requires b != ""
    ensures (a + b)[..|a + b| - 1] == a + b[..|b| - 1] && (a + b)[|a + b| - 1] == b[|b| - 1]
  {
  }

  /** Trimming a text reaches its front only if it leaves nothing of the back. */
  lemma {:induction false} TrimEndOf(a: string, b: string)
    ensures TrimEnd(a + b) == if TrimEnd(b) == "" then TrimEnd(a) else a + TrimEnd(b)
  {
    if b == "" {
      assert a + b == a;
    } else {
      DropLast(a, b);
      if IsSpace(b[|b| - 1]) {
        TrimEndOf(a, b[..|b| - 1]);
      }
    }
  }

  lemma IpLineIsKept(ip: string)
    requires OneWord(ip)
    ensures TrimStart(Uncommented(IpLine(ip))) == IpLine(ip) && NEWLINE !in IpLine(ip)
  {
    var line := IpLine(ip);
    assert COMMENT !in "ip " && NEWLINE !in "ip ";
    assert line[0] == 'i';
  }

  lemma IpLineTrimmed(ip: string)
    ensures TrimEnd(IpLine(ip)) == if TrimEnd(ip) == "" then "ip" else IpLine(TrimEnd(ip))
  {
    TrimEndOf("ip ", ip);
    assert TrimEnd("ip ") == "ip" by {
      assert "ip "[..2] == "ip";
    }
    hide TrimEnd;
  }

  lemma IpLinePieces(word: string)
    requires ' ' !in word && word != ""
    ensures Pieces(IpLine(word), ' ') == ["ip", word] && Pieces("ip", ' ') == ["ip"]
  {
    hide Pieces;
    LastPiece(word, ' ');
    LastPiece("ip", ' ');
    FirstPiece("ip", ' ', word);
    assert "ip" + [' '] + word == IpLine(word);
    assert ["ip"] + [word] == ["ip", word];
  }

  lemma IpLineComponents(ip: string)
    requires OneWord(ip)
    ensures Components(IpLine(ip)) == if TrimEnd(ip) == "" then ["ip"] else ["ip", TrimEnd(ip)]
  {
    IpLineIsKept(ip);
    IpLineTrimmed(ip);
    hide TrimEnd, TrimStart, Uncommented, Pieces, OneWord, IpLine;
    if TrimEnd(ip) == "" {
      IpLinePieces("x");
    } else {
      IpLinePieces(TrimEnd(ip));
    }
  }

  /** The line of an address that is one word: the address is added without what `isspace` takes off its end, and
      nothing is added if that leaves nothing. */
  lemma IpLineReads(bans: Bans, ip: string, parseUid: string -> Option<int>)
    requires OneWord(ip)
    ensures ReadLine(bans, IpLine(ip), parseUid) == if TrimEnd(ip) == "" then bans else bans.(ips := bans.ips + {TrimEnd(ip)})
  {
    hide Components, TrimEnd, ReadParts, OneWord, IpLine;
    IpLineComponents(ip);
    IpParts(bans, TrimEnd(ip), parseUid);
  }

  lemma IpParts(bans: Bans, word: string, parseUid: string -> Option<int>)
    ensures ReadParts(bans, ["ip"], parseUid) == bans
    ensures ReadParts(bans, ["ip", word], parseUid) == bans.(ips := bans.ips + {word})
  {
  }

  lemma {:induction false} UncommentedOf(a: string, note: string)
    requires COMMENT !in a
    ensures Uncommented(a + "#" + note) == a
  {
    if a == "" {
      assert (a + "#" + note)[0] == '#';
    } else {
      UncommentedOf(a[1..], note);
      assert (a + "#" + note)[0] == a[0] && (a + "#" + note)[1..] == a[1..] + "#" + note;
    }
  }

  predicate AllSpace(s: string) {
    forall i :: 0 <= i < |s| ==> s[i] == ' ' || s[i] == '\t'
  }

  lemma {:induction false} TrimStartOf(lead: string, s: string)
    requires AllSpace(lead) && s != "" && !IsSpace(s[0])
    ensures TrimStart(lead + s) == s
  {
    if lead == "" {
      assert lead + s == s;
    } else {
      TrimStartOf(lead[1..], s);
      assert (lead + s)[0] == lead[0] && (lead + s)[1..] == lead[1..] + s;
    }
  }

  lemma {:induction false} TrimEndOfSpace(gap: string)
    requires AllSpace(gap)
    ensures TrimEnd(gap) == ""
  {
    if gap != "" {
      TrimEndOfSpace(gap[..|gap| - 1]);
    }
  }

  lemma CommentedIsTrimmed(lead: string, ip: string, gap: string, note: string)
    requires AllSpace(lead) && AllSpace(gap) && Printable(ip)
    ensures Components(lead + IpLine(ip) + gap + "#" + note) == Components(IpLine(ip))
  {
    var line := lead + IpLine(ip) + gap;
    assert COMMENT !in IpLine(ip) && COMMENT !in line;
    UncommentedOf(line, note);
    Reassociate(lead, IpLine(ip), gap);
    assert (IpLine(ip) + gap)[0] == 'i';
    TrimStartOf(lead, IpLine(ip) + gap);
    TrimEndOfSpace(gap);
    TrimEndOf(IpLine(ip), gap);
    IpLineIsKept(ip);
    hide Uncommented, TrimStart, TrimEnd, Pieces;
  }

  /** Indentation and a comment behind an address do not matter, and a line that is only a comment adds nothing. */
  lemma CommentsDoNotMatter(bans: Bans, lead: string, ip: string, gap: string, note: string, parseUid: string -> Option<int>)
    requires AllSpace(lead) && AllSpace(gap) && Printable(ip)
    ensures ReadLine(bans, lead + "ip " + ip + gap + "#" + note, parseUid) == bans.(ips := bans.ips + {ip})
    ensures ReadLine(bans, lead + "#" + note, parseUid) == bans
  {
    CommentedIsTrimmed(lead, ip, gap, note);
    Reassociate(lead, "ip ", ip);
    IpLineReads(bans, ip, parseUid);
    PrintableTrimmed(ip);
    OnlyComment(lead, note);
    hide Components, Printable, TrimEnd;
  }

  /** A line adds the second of its words, to the addresses after "ip" and to the identifiers after "uid" if it is one, and
      nothing after any other word; what follows the second word does not matter. */
  lemma WordsRead(bans: Bans, first: string, second: string, tail: string, parseUid: string -> Option<int>)
    requires Printable(first) && !IsSpace(first[0]) && Printable(second)
    requires COMMENT !in tail && (tail == "" || (tail[0] == ' ' && !IsSpace(tail[|tail| - 1])))
    ensures ReadLine(bans, first, parseUid) == bans
    ensures ReadLine(bans, first + [' '] + (second + tail), parseUid) ==
            if first == "ip" then Bans(bans.ips + {second}, bans.uids)
            else if first == "uid" && parseUid(second).Some? then Bans(bans.ips, bans.uids + {parseUid(second).value})
            else bans
  {
    OneWordComponents(first);
    WordsComponents(first, second, tail);
    hide Components, Printable;
  }

  lemma OneWordComponents(word: string)
    requires Printable(word) && !IsSpace(word[0])
    ensures Components(word) == [word]
  {
    hide Pieces;
    LastPiece(word, ' ');
  }

  lemma WordsComponents(first: string, second: string, tail: string)
    requires Printable(first) && !IsSpace(first[0]) && Printable(second)
    requires COMMENT !in tail && (tail == "" || (tail[0] == ' ' && !IsSpace(tail[|tail| - 1])))
    ensures var parts := Components(first + [' '] + (second + tail));
            |parts| >= 2 && parts[0] == first && parts[1] == second
  {
    hide Uncommented, TrimStart, TrimEnd, Pieces, IsSpace;
    var rest := second + tail;
    LastOf(second, tail);
    Ends(first, rest);
    FirstPiece(first, ' ', rest);
    PieceBefore(second, tail);
    assert ([first] + Pieces(rest, ' '))[1] == Pieces(rest, ' ')[0];
  }

  lemma LastOf(word: string, tail: string)
    requires word != "" && COMMENT !in word && COMMENT !in tail
    ensures var rest := word + tail;
            rest != "" && COMMENT !in rest && rest[|rest| - 1] == if tail == "" then word[|word| - 1] else tail[|tail| - 1]
  {
  }

  lemma PieceBefore(word: string, tail: string)
    requires word != "" && ' ' !in word && (tail == "" || tail[0] == ' ')
    ensures Pieces(word + tail, ' ') != [] && Pieces(word + tail, ' ')[0] == word
  {
    hide Pieces;
    if tail == "" {
      assert word + tail == word;
      LastPiece(word, ' ');
    } else {
      assert word + tail == word + [' '] + tail[1..];
      FirstPiece(word, ' ', tail[1..]);
    }
  }

  lemma Ends(first: string, rest: string)
    requires first != "" && rest != "" && COMMENT !in first && COMMENT !in rest
    requires !IsSpace(first[0]) && !IsSpace(rest[|rest| - 1])
    ensures TrimEnd(TrimStart(Uncommented(first + [' '] + rest))) == first + [' '] + rest
  {
    var line := first + [' '] + rest;
    assert COMMENT !in line && line[0] == first[0] && line[|line| - 1] == rest[|rest| - 1];
    hide IsSpace;
  }

  lemma PrintableTrimmed(ip: string)
    requires Printable(ip)
    ensures TrimEnd(ip) == ip != "" && OneWord(ip)
  {
  }

  lemma OnlyComment(lead: string, note: string)
    requires AllSpace(lead)
    ensures Components(lead + "#" + note) == []
  {
    assert COMMENT !in lead;
    UncommentedOf(lead, note);
    TrimStartOfSpace(lead);
  }

  lemma {:induction false} TrimStartOfSpace(lead: string)
    requires AllSpace(lead)
    ensures TrimStart(lead) == ""
  {
    if lead != "" {
      TrimStartOfSpace(lead[1..]);
    }
  }

  /** The words that are read back from the lines of a list of addresses. */
  function Trimmed(ips: seq<string>): set<string> {
    if ips == [] then {} else (if TrimEnd(ips[0]) == "" then {} else {TrimEnd(ips[0])}) + Trimmed(ips[1..])
  }

  lemma {:induction false} IpLinesRead(bans: Bans, ips: seq<string>, parseUid: string -> Option<int>)
    requires forall ip <- ips :: OneWord(ip)
    ensures ReadLines(bans, IpLines(ips), parseUid) == bans.(ips := bans.ips + Trimmed(ips))
    decreases |ips|
  {
    hide ReadLine, TrimEnd, OneWord;
    if ips == [] {
      assert bans.ips + {} == bans.ips;
    } else {
      assert forall ip <- ips[1..] :: ip in ips;
      IpLineReads(bans, ips[0], parseUid);
      IpLinesRead(ReadLine(bans, IpLine(ips[0]), parseUid), ips[1..], parseUid);
      NextIpLine(bans, ips, parseUid);
    }
  }

  lemma NextIpLine(bans: Bans, ips: seq<string>, parseUid: string -> Option<int>)
    requires ips != []
    ensures ReadLines(bans, IpLines(ips), parseUid) ==
            ReadLines(ReadLine(bans, IpLine(ips[0]), parseUid), IpLines(ips[1..]), parseUid)
  {
    hide ReadLine;
    assert IpLines(ips)[1..] == IpLines(ips[1..]);
  }

  predicate IsNoEntry(line: string) {
    NEWLINE !in line && (line == "" || line[0] == COMMENT)
  }

  lemma ListTitleIsComment()
    ensures IsNoEntry(ListTitle())
  {
  }

  lemma FilterNoteIsComment()
    ensures IsNoEntry(FilterNote()) && FilterNote() != ""
  {
  }

  lemma FilterEffectIsOneLine()
    ensures NEWLINE !in FilterEffect()
  {
  }

  lemma FilterObjectIsOneLine()
    ensures NEWLINE !in FilterObject()
  {
  }

  lemma IpTitleIsComment()
    ensures IsNoEntry(IpTitle())
  {
  }

  lemma IpFormatIsComment()
    ensures IsNoEntry(IpFormat())
  {
  }

  lemma HeaderHasNoEntry()
    ensures forall line <- Header() :: IsNoEntry(line)
  {
    ListTitleIsComment();
    FilterNoteIsComment();
    FilterEffectIsOneLine();
    FilterObjectIsOneLine();
    IpTitleIsComment();
    IpFormatIsComment();
    hide ListTitle, FilterNote, FilterEffect, FilterObject, IpTitle, IpFormat;
  }

  lemma NoEntryIsSkipped(bans: Bans, line: string, parseUid: string -> Option<int>)
    requires IsNoEntry(line)
    ensures ReadLine(bans, line, parseUid) == bans
  {
    assert Uncommented(line) == "";
    assert TrimEnd(TrimStart("")) == "";
    LastPiece("", ' ');
    hide Uncommented, TrimStart, TrimEnd, Pieces;
  }

  lemma {:induction false} NoEntriesAreSkipped(bans: Bans, lines: seq<string>, more: seq<string>, parseUid: string -> Option<int>)
    requires forall line <- lines :: IsNoEntry(line)
    ensures ReadLines(bans, lines + more, parseUid) == ReadLines(bans, more, parseUid)
  {
    hide ReadLine, IsNoEntry;
    if lines == [] {
      assert [] + more == more;
    } else {
      NoEntryIsSkipped(bans, lines[0], parseUid);
      assert (lines + more)[1..] == lines[1..] + more;
      assert forall line <- lines[1..] :: line in lines;
      NoEntriesAreSkipped(bans, lines[1..], more, parseUid);
    }
  }

  /** Lines that are written are the lines that are read. */
  lemma {:induction false} UnlinesReadBack(lines: seq<string>, rest: string)
    requires forall line <- lines :: NEWLINE !in line
    ensures Lines(Unlines(lines) + rest) == lines + Lines(rest)
  {
    if lines == [] {
      assert Unlines(lines) + rest == rest;
    } else {
      assert forall line <- lines[1..] :: line in lines;
      UnlinesReadBack(lines[1..], rest);
      var more := Unlines(lines[1..]);
      Reassociate(lines[0] + "\n", more, rest);
      hide Lines, Unlines;
      FirstLine(lines[0], more + rest);
      assert [lines[0]] + (lines[1..] + Lines(rest)) == lines + Lines(rest);
    }
  }

  lemma {:induction false} IpLinesAreLines(ips: seq<string>)
    requires forall ip <- ips :: OneWord(ip)
    ensures forall line <- IpLines(ips) :: NEWLINE !in line
  {
    if ips != [] {
      assert forall ip <- ips[1..] :: ip in ips;
      IpLinesAreLines(ips[1..]);
      assert OneWord(ips[0]);
      IpLineIsKept(ips[0]);
      hide IpLine;
    }
  }

  /** What comes back from the text of addresses that are one word each. */
  lemma SavedReads(ips: seq<string>, parseUid: string -> Option<int>)
    requires forall ip <- ips :: OneWord(ip)
    ensures Read(NO_BANS, Save(ips), parseUid) == Bans(Trimmed(ips), {})
  {
    hide ReadLines, Unlines, IpLines, Header, OneWord, Lines, Trimmed;
    HeaderHasNoEntry();
    IpLinesAreLines(ips);
    UnlinesReadBack(Header(), Unlines(IpLines(ips)));
    UnlinesReadBack(IpLines(ips), "");
    assert Lines("") == [] by { LastPieceIsNone(); }
    assert Unlines(IpLines(ips)) + "" == Unlines(IpLines(ips));
    assert IpLines(ips) + [] == IpLines(ips);
    NoEntriesAreSkipped(NO_BANS, Header(), IpLines(ips), parseUid);
    IpLinesRead(NO_BANS, ips, parseUid);
    assert {} + Trimmed(ips) == Trimmed(ips);
  }

  lemma LastPieceIsNone()
    ensures Lines("") == []
  {
  }

  lemma {:induction false} TrimmedAre(ips: seq<string>, word: string)
    ensures word in Trimmed(ips) <==> word != "" && exists ip <- ips :: TrimEnd(ip) == word
  {
    hide TrimEnd;
    if ips != [] {
      TrimmedAre(ips[1..], word);
      assert ips[0] in ips;
      forall ip | ip in ips ensures ip == ips[0] || ip in ips[1..] {
      }
      assert forall ip <- ips[1..] :: ip in ips;
    }
  }

  lemma PrintableReadsBack(ips: seq<string>)
    requires forall ip <- ips :: Printable(ip)
    ensures Trimmed(ips) == set ip <- ips
  {
    forall word ensures word in Trimmed(ips) <==> word in ips {
      TrimmedAre(ips, word);
      assert forall ip <- ips :: TrimEnd(ip) == ip;
    }
    hide Trimmed;
  }

  lemma TrimmedIsPrintable(ips: seq<string>, ip: string)
    requires OneWord(ip) && ip in Trimmed(ips)
    ensures Printable(ip)
  {
    TrimmedAre(ips, ip);
    hide Trimmed;
  }

  lemma ReadsOnlyWords(text: string, parseUid: string -> Option<int>)
    ensures forall ip <- Read(NO_BANS, text, parseUid).ips :: OneWord(ip)
  {
    LinesHaveNoNewline(text);
    ReadLinesAddWords(NO_BANS, Lines(text), parseUid);
    hide ReadLines, Lines, OneWord;
  }

  /** Reading what was saved gives back exactly the saved addresses if and only if each of them is printable. */
  lemma SavedReadsBackIff(ips: seq<string>, parseUid: string -> Option<int>)
    ensures Read(NO_BANS, Save(ips), parseUid) == Bans(set ip <- ips, {}) <==> forall ip <- ips :: Printable(ip)
  {
    hide Trimmed, Read, Save;
    ReadsOnlyWords(Save(ips), parseUid);
    if forall ip <- ips :: OneWord(ip) {
      SavedReads(ips, parseUid);
      if forall ip <- ips :: Printable(ip) {
        PrintableReadsBack(ips);
      } else {
        var ip :| ip in ips && !Printable(ip);
        if ip in Trimmed(ips) {
          TrimmedIsPrintable(ips, ip);
        }
      }
    }
    hide OneWord;
  }

  // ----- The list that the server keeps -----

  /** `std::getline` on a stream that is not at its end. */
  method GetLine(stream: string, delim: char) returns (line: string, rest: string)
    requires stream != ""
    ensures Pieces(stream, delim) == [line] + Pieces(rest, delim) && |rest| < |stream|
  {
    var n := PieceLength(stream, delim);
    if n == |stream| {
      line, rest := stream, "";
      assert Pieces("", delim) == [];
    } else {
      line, rest := stream[..n], stream[n + 1..];
    }
  }

  method SplitString(stringToSplit: string, delim: char) returns (items: seq<string>)
    ensures items == Pieces(stringToSplit, delim)
  {
    items := [];
    var stream := stringToSplit;
    while stream != ""
      invariant items + Pieces(stream, delim) == Pieces(stringToSplit, delim)
      decreases |stream|
    {
      var item, rest := GetLine(stream, delim);
      assert items + ([item] + Pieces(rest, delim)) == (items + [item]) + Pieces(rest, delim);
      items, stream := items + [item], rest;
    }
    assert Pieces("", delim) == [];
  }

  class List {
    var ipAddresses: set<string>
    var uids: set<int>

    ghost function Value(): Bans
      reads this
    {
      Bans(ipAddresses, uids)
    }

    constructor ()
      ensures Value() == NO_BANS
    {
      ipAddresses, uids := {}, {};
    }

    /** Reads the lines of a stream to its end. */
    method ReadStream(text: string, parseUid: string -> Option<int>)
      modifies this
      ensures Value() == Read(old(Value()), text, parseUid)
    {
      hide ReadLine, Pieces, OneWord;
      ghost var start := Value();
      var stream := text;
      while stream != ""
        invariant ReadLines(Value(), Pieces(stream, NEWLINE), parseUid) == ReadLines(start, Pieces(text, NEWLINE), parseUid)
        decreases |stream|
      {
        var line, rest := GetLine(stream, NEWLINE);
        assert ([line] + Pieces(rest, NEWLINE))[1..] == Pieces(rest, NEWLINE);
        ReadOneLine(line, parseUid);
        stream := rest;
      }
      LastPiece("", NEWLINE);
    }

    method ReadOneLine(text: string, parseUid: string -> Option<int>)
      modifies this
      ensures Value() == ReadLine(old(Value()), text, parseUid)
    {
      var line := Uncommented(text);
      line := TrimEnd(TrimStart(line));
      var components := SplitString(line, ' ');
      hide TrimStart, TrimEnd, Uncommented, Pieces;
      if |components| < 2 {
        return;
      }
      if components[0] == "ip" {
        ipAddresses := ipAddresses + {components[1]};
      } else if components[0] == "uid" {
        var uid := parseUid(components[1]);
        if uid.Some? {
          uids := uids + {uid.value};
        }
      }
    }

    /** Prints the addresses in whatever order the set has. */
    method SaveStream() returns (text: string, ghost order: seq<string>)
      ensures (set ip <- order) == ipAddresses && |order| == |ipAddresses| && text == Save(order)
    {
      text := Unlines(Header());
      order := [];
      hide Header, Unlines, IpLines;
      var left: set<string> := ipAddresses;
      assert Unlines(IpLines([])) == "" by { NoIpLines(); }
      while left != {}
        invariant left <= ipAddresses && |order| + |left| == |ipAddresses|
        invariant forall ip :: ip in order <==> ip in ipAddresses && ip !in left
        invariant text == Unlines(Header()) + Unlines(IpLines(order))
        decreases |left|
      {
        var ip := AnyOf(left);
        left := left - {ip};
        OneMoreIpLine(order, ip);
        text := text + "ip " + ip + "\n";
        order := order + [ip];
      }
    }

    static lemma NoIpLines()
      ensures Unlines(IpLines([])) == ""
    {
    }

    static lemma {:induction false} OneMoreIpLine(order: seq<string>, ip: string)
      ensures Unlines(IpLines(order + [ip])) == Unlines(IpLines(order)) + "ip " + ip + "\n"
    {
      if order != [] {
        OneMoreIpLine(order[1..], ip);
        assert (order + [ip])[1..] == order[1..] + [ip];
      }
    }
  }
}
