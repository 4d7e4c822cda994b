/** Making a player's name presentable (ElDorito/Source/Patches/Network.cpp:655-696).

    The sanitizer overwrites the name in its own buffer: a character that is kept moves to the front, and a run of spaces
    becomes one. The specification does the same with the words of the name. */
module PlayerName {
  import opened Text

  const NAME_LENGTH: nat := 16

  const DISALLOWED: string := ['\'', '\"', '<', '>', '/', '\\']

  predicate Allowed(c: char) {
    ' ' < c < 127 as char && c !in DISALLOWED
  }

  /** The characters that may stay. */
  function Keep(s: string): (r: string)
    ensures forall c <- r :: Allowed(c) || c == ' '
  {
    if s == "" then ""
    else
      var front, c := s[..|s| - 1], s[|s| - 1];
      Keep(front) + if Allowed(c) || c == ' ' then [c] else ""
  }

  /** The words of a text, which are separated by spaces. */
  function Words(s: string): (words: seq<string>)
    ensures s != "" && s[|s| - 1] != ' ' ==> words != []
  {
    if s == "" then []
    else
      var front, c := s[..|s| - 1], s[|s| - 1];
      if c == ' ' then Words(front)
      else if front == "" || front[|front| - 1] == ' ' then Words(front) + [[c]]
      else
        var words := Words(front);
        words[..|words| - 1] + [words[|words| - 1] + [c]]
  }

  function Join(words: seq<string>): string {
    if words == [] then ""
    else if |words| == 1 then words[0]
    else Join(words[..|words| - 1]) + " " + words[|words| - 1]
  }

  /** The name without the characters that are not allowed, its words separated by single spaces. */
  function Sanitized(s: string): string {
    Join(Words(Keep(s)))
  }

  /** What is stored: at most fifteen characters up to the first NUL count, and there is a name in any case. */
  function StoredName(name: string): (r: string) {
    var s := Sanitized(Counted(name));
    if s == "" then "Forgot" else s
  }

  // ----- What such a name looks like -----

  /** Allowed characters, and single spaces between them. */
  predicate Tidy(s: string) {
    && (forall c <- s :: Allowed(c) || c == ' ')
    && (s != "" ==> s[0] != ' ' && s[|s| - 1] != ' ')
    && (forall i :: 0 <= i < |s| - 1 ==> !(s[i] == ' ' && s[i + 1] == ' '))
  }

  lemma KeepMore(s: string, c: char)
    ensures Keep(s + [c]) == Keep(s) + if Allowed(c) || c == ' ' then [c] else ""
  {
    assert (s + [c])[..|s|] == s;
  }

  lemma WordsMore(k: string, c: char)
    ensures k != "" && k[|k| - 1] != ' ' ==> Words(k) != []
    ensures Words(k + [c]) ==
            if c == ' ' then Words(k)
            else if k == "" || k[|k| - 1] == ' ' then Words(k) + [[c]]
            else Words(k)[..|Words(k)| - 1] + [Words(k)[|Words(k)| - 1] + [c]]
  {
    assert (k + [c])[..|k|] == k;
  }

  lemma {:induction false} WordsAreNotEmpty(s: string)
    ensures forall i :: 0 <= i < |Words(s)| ==> Words(s)[i] != ""
  {
    if s != "" {
      var front, c := s[..|s| - 1], s[|s| - 1];
      assert s == front + [c];
      WordsAreNotEmpty(front);
      WordsMore(front, c);
      hide Words;
    }
  }

  lemma JoinIsEmptyIff(words: seq<string>)
    requires forall i :: 0 <= i < |words| ==> words[i] != ""
    ensures Join(words) == "" <==> words == []
  {
  }

  lemma JoinAnother(words: seq<string>, w: string)
    ensures Join(words + [w]) == if words == [] then w else Join(words) + " " + w
  {
    assert (words + [w])[..|words|] == words;
  }

  lemma JoinLonger(front: seq<string>, w: string, c: char)
    ensures Join(front + [w + [c]]) == Join(front + [w]) + [c]
  {
    hide Join;
    JoinAnother(front, w);
    JoinAnother(front, w + [c]);
    Reassociate(Join(front) + " ", w, [c]);
  }

  predicate EndsInSpace(s: string) {
    s != "" && s[|s| - 1] == ' '
  }

  /** One more character at the end: it is dropped, or starts a word, or continues the last one. */
  lemma OneMore(s: string, c: char)
    ensures Sanitized(s + [c]) ==
            Sanitized(s) +
            if !Allowed(c) then "" else if EndsInSpace(Keep(s)) && Sanitized(s) != "" then [' ', c] else [c]
    ensures Keep(s + [c]) == Keep(s) + if Allowed(c) || c == ' ' then [c] else ""
  {
    var k := Keep(s);
    KeepMore(s, c);
    if Allowed(c) {
      JoinMore(k, c);
    } else if c == ' ' {
      WordsMore(k, c);
    }
    hide Keep, Words, Join;
    assert Sanitized(s) + "" == Sanitized(s);
    assert k + "" == k;
  }

  lemma JoinMore(k: string, c: char)
    requires c != ' '
    ensures Join(Words(k + [c])) == Join(Words(k)) + if EndsInSpace(k) && Join(Words(k)) != "" then [' ', c] else [c]
  {
    WordsMore(k, c);
    WordsAreNotEmpty(k);
    JoinIsEmptyIff(Words(k));
    if k == "" {
      assert Words(k) == [] && Join([[c]]) == [c];
    } else if EndsInSpace(k) {
      JoinAnother(Words(k), [c]);
      Reassociate(Join(Words(k)), " ", [c]);
      assert " " + [c] == [' ', c];
    } else {
      var n := |Words(k)| - 1;
      JoinLonger(Words(k)[..n], Words(k)[n], c);
      assert Words(k)[..n] + [Words(k)[n]] == Words(k);
    }
    hide Words, Join;
  }

  /** Every result is tidy, and not longer than the text: there is room for every space that is put in. */
  lemma {:induction false} SanitizedIsTidy(s: string)
    ensures Tidy(Sanitized(s))
    ensures |Sanitized(s)| + (if Sanitized(s) != "" && EndsInSpace(Keep(s)) then 1 else 0) <= |s|
  {
    if s != "" {
      var front, c := s[..|s| - 1], s[|s| - 1];
      assert s == front + [c];
      SanitizedIsTidy(front);
      OneMore(front, c);
      hide Sanitized, Keep;
    }
  }

  /** A text stays as it is if and only if it is tidy. */
  lemma UnchangedIffTidy(s: string)
    ensures Sanitized(s) == s <==> Tidy(s)
  {
    SanitizedIsTidy(s);
    if Tidy(s) {
      TidyStays(s);
    }
    hide Sanitized;
  }

  /** The beginning of a tidy text. */
  predicate TidySoFar(s: string) {
    && (forall c <- s :: Allowed(c) || c == ' ')
    && (s != "" ==> s[0] != ' ')
    && (forall i :: 0 <= i < |s| - 1 ==> !(s[i] == ' ' && s[i + 1] == ' '))
  }

  lemma TidyFront(front: string, c: char)
    requires TidySoFar(front + [c])
    ensures TidySoFar(front) && (Allowed(c) || c == ' ') && (c == ' ' ==> front != "" && !EndsInSpace(front))
  {
    var s := front + [c];
    assert c == s[|front|] && c in s;
    assert forall i :: 0 <= i < |front| ==> front[i] == s[i] && front[i] in s;
    assert forall d <- front :: d in s;
    if c == ' ' && front != "" {
      assert s[|front| - 1 + 1] == ' ';
    }
  }

  lemma DropLast(s: string, c: char)
    requires s != ""
    ensures (s + [c])[..|s|] == s && s[..|s| - 1] + [s[|s| - 1], c] == s + [c]
  {
  }

  lemma {:induction false} TidyStays(s: string)
    requires TidySoFar(s)
    ensures Keep(s) == s
    ensures Sanitized(s) == if EndsInSpace(s) then s[..|s| - 1] else s
  {
    if s != "" {
      var front, c := s[..|s| - 1], s[|s| - 1];
      assert s == front + [c];
      TidyFront(front, c);
      TidyStays(front);
      OneMore(front, c);
      if front != "" {
        DropLast(front, c);
        assert EndsInSpace(front) ==> front[..|front| - 1] != "";
      }
      hide Sanitized, Keep, TidySoFar;
    }
  }

  /** The part of a name that counts. */
  function Counted(name: string): string {
    CStr(if |name| <= NAME_LENGTH - 1 then name else name[..NAME_LENGTH - 1])
  }

  lemma ShortCounts(name: string)
    requires |name| < NAME_LENGTH && NUL !in name
    ensures Counted(name) == name
  {
  }

  /** A stored name fits with its NUL, is not empty, and is tidy; and doing it again changes nothing. */
  lemma Idempotent(name: string)
    ensures 1 <= |StoredName(name)| < NAME_LENGTH && Tidy(StoredName(name)) && NUL !in StoredName(name)
    ensures StoredName(StoredName(name)) == StoredName(name)
  {
    SanitizedIsTidy(Counted(name));
    assert |Counted(name)| < NAME_LENGTH;
    hide Sanitized, Counted;
    var stored := StoredName(name);
    assert Tidy(stored);
    UnchangedIffTidy(stored);
    ShortCounts(stored);
  }

  // ----- What becomes of a name's characters -----

  /** A visible ASCII character other than quotes, angle brackets and slashes. */
  predicate Letter(c: char) {
    '!' <= c <= '~' && c != '\'' && c != '"' && c != '<' && c != '>' && c != '/' && c != '\\'
  }

  function Letters(s: string): string {
    if s == "" then ""
    else Letters(s[..|s| - 1]) + if Letter(s[|s| - 1]) then [s[|s| - 1]] else ""
  }

  lemma LettersMore(s: string, c: char)
    ensures Letters(s + [c]) == Letters(s) + if Letter(c) then [c] else ""
  {
    assert (s + [c])[..|s|] == s;
  }

  lemma LetterIsAllowed(c: char)
    ensures Letter(c) == Allowed(c)
  {
  }

  /** Letters stay, in their order, and no other letters come in. */
  lemma {:induction false} LettersStay(s: string)
    ensures Letters(Sanitized(s)) == Letters(s)
  {
    if s != "" {
      var front, c := s[..|s| - 1], s[|s| - 1];
      assert s == front + [c];
      LettersStay(front);
      OneMore(front, c);
      LettersMore(front, c);
      LetterIsAllowed(c);
      hide Sanitized, Keep, Letters, Letter, Allowed;
      var out := Sanitized(front);
      LettersMore(out, c);
      LettersMore(out, ' ');
      LettersMore(out + [' '], c);
      LetterIsAllowed(' ');
      AllowedIsNoSpace(' ');
      assert out + [' ', c] == out + [' '] + [c];
      assert out + "" == out && Letters(out) + "" == Letters(out);
    }
  }

  /** Characters between two letters leave a space if there is a space among them, and else nothing. */
  lemma BetweenLetters(s: string, between: string, c: char)
    requires Letters(s) != "" && !EndsInSpace(Keep(s)) && Letters(between) == "" && Letter(c)
    ensures Sanitized(s + between + [c]) == Sanitized(s) + if ' ' in between then [' ', c] else [c]
  {
    LetterIsAllowed(c);
    LettersStay(s);
    assert Sanitized(s) == "" ==> Letters(Sanitized(s)) == "";
    OnlyOthers(s, between);
    OneMore(s + between, c);
    hide Sanitized, Keep, Letters;
  }

  lemma {:induction false} OnlyOthers(s: string, between: string)
    requires Letters(between) == "" && !EndsInSpace(Keep(s))
    ensures Sanitized(s + between) == Sanitized(s)
    ensures EndsInSpace(Keep(s + between)) == (' ' in between)
  {
    if between == "" {
      assert s + between == s;
    } else {
      var front, c := between[..|between| - 1], between[|between| - 1];
      assert between == front + [c];
      LettersMore(front, c);
      hide Sanitized, Keep, Letters, Letter, Allowed, EndsInSpace;
      OnlyOthers(s, front);
      OneOther(s + front, c);
      assert s + front + [c] == s + between;
    }
  }

  lemma OneOther(s: string, c: char)
    requires !Letter(c)
    ensures Sanitized(s + [c]) == Sanitized(s)
    ensures EndsInSpace(Keep(s + [c])) == (EndsInSpace(Keep(s)) || c == ' ')
  {
    LetterIsAllowed(c);
    OneMore(s, c);
    hide Sanitized, Keep, Letter, Allowed;
    assert Sanitized(s) + "" == Sanitized(s);
    assert Keep(s) + "" == Keep(s);
  }

  /** Of what is stored, the letters are those of the first fifteen characters up to a NUL; without any, the name is
      "Forgot". */
  lemma StoredLetters(name: string)
    ensures var counts := CStr(if |name| <= 15 then name else name[..15]);
            if Letters(counts) == "" then StoredName(name) == "Forgot" else Letters(StoredName(name)) == Letters(counts)
  {
    hide Sanitized, CStr, Letters, Tidy;
    var counts := CStr(if |name| <= 15 then name else name[..15]);
    assert counts == Counted(name);
    LettersStay(counts);
    SanitizedIsTidy(counts);
    LettersOfNothing("");
    if Letters(counts) == "" {
      NoLetters(Sanitized(counts));
    }
  }

  lemma LettersOfNothing(s: string)
    requires s == ""
    ensures Letters(s) == ""
  {
  }

  /** A tidy text without letters is empty. */
  lemma NoLetters(s: string)
    requires Tidy(s) && Letters(s) == ""
    ensures s == ""
  {
    if s != "" {
      var c := s[|s| - 1];
      assert c in s;
      LetterIsAllowed(c);
    }
  }

  // ----- In place -----

  function Padded(s: string): (r: seq<char>)
    requires |s| <= NAME_LENGTH
    ensures |r| == NAME_LENGTH
  {
    s + seq(NAME_LENGTH - |s|, _ => NUL)
  }

  lemma CountedPrefix(name: string, i: nat)
    requires |name| == NAME_LENGTH && i < NAME_LENGTH && NUL !in name[..i] && (i == NAME_LENGTH - 1 || name[i] == NUL)
    ensures Counted(name) == name[..i]
  {
    CStrOfPrefix(name[..NAME_LENGTH - 1], i);
    assert name[..NAME_LENGTH - 1][..i] == name[..i];
  }

  lemma {:induction false} CStrOfPrefix(s: string, i: nat)
    requires i <= |s| && NUL !in s[..i] && (i == |s| || s[i] == NUL)
    ensures CStr(s) == s[..i]
  {
    if i > 0 {
      assert s[0] == s[..i][0];
      assert s[1..][..i - 1] == s[..i][1..];
      CStrOfPrefix(s[1..], i - 1);
    }
  }

  method IsAllowed(c: char) returns (allowed: bool)
    requires c != ' '
    ensures allowed == Allowed(c)
  {
    allowed := false;
    if c > ' ' && c < 127 as char {
      allowed := true;
      var k := 0;
      while k < |DISALLOWED|
        invariant 0 <= k <= |DISALLOWED| && allowed
        invariant forall j :: 0 <= j < k ==> c != DISALLOWED[j]
      {
        if c == DISALLOWED[k] {
          return false;
        }
        k := k + 1;
      }
    }
  }

  /** The characters read so far have become the name written so far, which lies before them. */
  ghost predicate Written(now: seq<char>, name: seq<char>, i: nat, dest: nat, space: bool)
    requires |now| == |name| == NAME_LENGTH && i < NAME_LENGTH
  {
    var out := Sanitized(name[..i]);
    && dest == |out| && dest + (if space then 1 else 0) <= i
    && now[..dest] == out && now[i..] == name[i..] && NUL !in name[..i]
    && space == (out != "" && EndsInSpace(Keep(name[..i])))
  }

  lemma PutOne(now: seq<char>, dest: nat, c: char, rest: nat)
    requires dest < rest <= |now|
    ensures now[dest := c][..dest + 1] == now[..dest] + [c] && now[dest := c][rest..] == now[rest..]
  {
  }

  lemma PutTwo(now: seq<char>, dest: nat, c: char, rest: nat)
    requires dest + 1 < rest <= |now|
    ensures var after := now[dest := ' '][dest + 1 := c];
            after[..dest + 2] == now[..dest] + [' ', c] && after[rest..] == now[rest..]
  {
    PutOne(now, dest, ' ', rest);
    PutOne(now[dest := ' '], dest + 1, c, rest);
  }

  /** The prefix grows by one character. */
  lemma ReadOne(now: seq<char>, name: seq<char>, i: nat)
    requires |now| == |name| && i < |now| && now[i..] == name[i..]
    ensures now[i] == name[i] && now[i + 1..] == name[i + 1..] && name[..i] + [name[i]] == name[..i + 1]
  {
    assert now[i..][0] == name[i..][0];
    assert now[i + 1..] == now[i..][1..] && name[i + 1..] == name[i..][1..];
  }

  /** One more character: it is dropped, or written after the name so far, with a space if one is due. */
  lemma WriteNext(now: seq<char>, name: seq<char>, i: nat, dest: nat, space: bool)
    requires |now| == |name| == NAME_LENGTH && i < NAME_LENGTH - 1 && Written(now, name, i, dest, space) && now[i] != NUL
    ensures var c := now[i];
            if Allowed(c) then
              if space then Written(now[dest := ' '][dest + 1 := c], name, i + 1, dest + 2, false)
              else Written(now[dest := c], name, i + 1, dest + 1, false)
            else Written(now, name, i + 1, dest, space || (c == ' ' && dest > 0))
  {
    var c := now[i];
    ReadOne(now, name, i);
    OneMore(name[..i], c);
    hide Sanitized, Keep, Allowed;
    assert NUL !in name[..i] + [c];
    assert !EndsInSpace(Keep(name[..i]) + [c]) || c == ' ';
    if Allowed(c) {
      assert c != ' ' by { AllowedIsNoSpace(c); }
      if space {
        PutTwo(now, dest, c, i + 1);
      } else {
        PutOne(now, dest, c, i + 1);
      }
    } else {
      assert Keep(name[..i]) + "" == Keep(name[..i]);
    }
  }

  lemma AllowedIsNoSpace(c: char)
    ensures Allowed(c) ==> c != ' '
  {
  }

  lemma NothingWritten(name: seq<char>)
    requires |name| == NAME_LENGTH
    ensures Written(name, name, 0, 0, false)
  {
    assert name[..0] == "";
  }

  /** When the loop ends, all the characters that count have been read. */
  lemma WrittenIsStored(now: seq<char>, name: seq<char>, i: nat, dest: nat, space: bool)
    requires |now| == |name| == NAME_LENGTH && i < NAME_LENGTH && Written(now, name, i, dest, space)
    requires i == NAME_LENGTH - 1 || now[i] == NUL
    ensures dest < NAME_LENGTH && now[..dest] == Sanitized(Counted(name))
    ensures |StoredName(name)| < NAME_LENGTH
  {
    assert now[i..][0] == name[i..][0];
    CountedPrefix(name, i);
    hide Sanitized, Counted, Keep;
  }

  /** One turn of the loop. */
  method WriteCharacter(name: array<char>, i: nat, dest: nat, space: bool, ghost start: seq<char>) returns (newDest: nat, newSpace: bool)
    requires name.Length == NAME_LENGTH == |start| && i < NAME_LENGTH - 1 && name[i] != NUL
    requires Written(name[..], start, i, dest, space)
    modifies name
    ensures Written(name[..], start, i + 1, newDest, newSpace) && newDest <= i + 1
  {
    WriteNext(name[..], start, i, dest, space);
    assert dest <= i && (space ==> dest < 14);
    hide Written;
    newDest, newSpace := dest, space;
    var c := name[i];
    var allowed := false;
    if c != ' ' {
      allowed := IsAllowed(c);
    } else if dest > 0 {
      newSpace := true;
    }
    if allowed {
      if newSpace && newDest < 14 {
        name[newDest] := ' ';
        newDest := newDest + 1;
        newSpace := false;
      }
      name[newDest] := c;
      newDest := newDest + 1;
    }
  }

  /** The overwriting loop computes the stored name. */
  method SanitizePlayerName(name: array<char>)
    requires name.Length == NAME_LENGTH
    modifies name
    ensures |StoredName(old(name[..]))| < NAME_LENGTH && name[..] == Padded(StoredName(old(name[..])))
  {
    ghost var start := name[..];
    var i, dest, space := 0, 0, false;
    NothingWritten(start);
    hide Written, Sanitized, Counted;
    while i < 15 && dest < 15 && name[i] != NUL
      invariant 0 <= dest <= i <= 15
      invariant Written(name[..], start, i, dest, space)
      decreases 15 - i
    {
      dest, space := WriteCharacter(name, i, dest, space, start);
      i := i + 1;
    }
    WrittenIsStored(name[..], start, i, dest, space);
    Finish(name, dest);
  }

  /** Clears what is left of the name, and gives a nameless player one. */
  method Finish(name: array<char>, dest: nat)
    requires name.Length == NAME_LENGTH && dest <= NAME_LENGTH
    modifies name
    ensures name[..] == Padded(if dest == 0 then "Forgot" else old(name[..dest]))
  {
    forall k | dest <= k < NAME_LENGTH {
      name[k] := NUL;
    }
    if dest == 0 {
      name[0], name[1], name[2], name[3], name[4], name[5] := 'F', 'o', 'r', 'g', 'o', 't';
    }
  }
}
