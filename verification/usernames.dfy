/**
 The login key of an account: the owner's name lower-cased, split on single
 spaces, the first character of each piece, joined. An empty piece (two
 spaces in a row, or a leading or trailing space) has no first character and
 contributes nothing, as `undefined` joins to the empty string.
 */
module Usernames {

  predicate IsUpper(c: char) { 'A' <= c <= 'Z' }

  /** Lower-cases one character (ASCII letters only). */
  function LowerChar(c: char): (r: char)
    ensures !IsUpper(r)
    ensures !IsUpper(c) ==> r == c
    ensures IsUpper(c) ==> 'a' <= r <= 'z' && r as int - c as int == 32
  {
    if IsUpper(c) then (c as int + 32) as char else c
  }

  function Lower(s: string): (r: string)
    ensures |r| == |s|
    ensures forall i :: 0 <= i < |s| ==> r[i] == LowerChar(s[i])
  {
    seq(|s|, i requires 0 <= i < |s| => LowerChar(s[i]))
  }

  /** `s.split(sep)`: the pieces between separators; always at least one. */
  function Split(s: string, sep: char): (r: seq<string>)
    ensures |r| >= 1
    ensures forall j :: 0 <= j < |r| ==> sep !in r[j]
  {
    if |s| == 0 then [""]
    else
      var rest := Split(s[1..], sep);
      if s[0] == sep then [""] + rest
      else [[s[0]] + rest[0]] + rest[1..]
  }

  /** `words.join(sep)`: the inverse of Split. */
  function Join(words: seq<string>, sep: char): string
  {
    if |words| == 0 then ""
    else if |words| == 1 then words[0]
    else words[0] + [sep] + Join(words[1..], sep)
  }

  /** Number of occurrences of `c` in `s`. */
  function Count(s: string, c: char): nat
  {
    if |s| == 0 then 0 else (if s[0] == c then 1 else 0) + Count(s[1..], c)
  }

  /** `words.map(word => word[0]).join('')`. */
  function Initials(words: seq<string>): (r: string)
    ensures |r| <= |words|
    ensures (forall j :: 0 <= j < |words| ==> |words[j]| > 0) ==>
              |r| == |words| && forall j :: 0 <= j < |words| ==> r[j] == words[j][0]
  {
    if |words| == 0 then ""
    else (if |words[0]| > 0 then [words[0][0]] else "") + Initials(words[1..])
  }

  /** The username `createUsernames` assigns to an account with this owner. */
  function Username(owner: string): string
  {
    Initials(Split(Lower(owner), ' '))
  }

  /** Reference definition: the characters of `s` that start a word, i.e. are
      not a space and come first or right after a space. */
  function WordStarts(s: string, atStart: bool): string
  {
    if |s| == 0 then ""
    else (if atStart && s[0] != ' ' then [s[0]] else "") + WordStarts(s[1..], s[0] == ' ')
  }

  // ---------------------------------------------------------------------------
  // Lemmas

  /** Prefixing the first piece prefixes the joined string. */
  lemma JoinConsFirst(c: char, words: seq<string>, sep: char)
    requires |words| >= 1
    ensures Join([[c] + words[0]] + words[1..], sep) == [c] + Join(words, sep)
  {
    var w := [[c] + words[0]] + words[1..];
    assert w[1..] == words[1..];
  }

  /** An empty first piece contributes only its separator. */
  lemma JoinEmptyFirst(words: seq<string>, sep: char)
    requires |words| >= 1
    ensures Join([""] + words, sep) == [sep] + Join(words, sep)
  {
    assert ([""] + words)[1..] == words;
  }

  /** Joining the pieces with the separator gives back the original string. */
  lemma {:induction false} JoinSplit(s: string, sep: char)
    ensures Join(Split(s, sep), sep) == s
  {
    if |s| > 0 {
      var rest := Split(s[1..], sep);
      JoinSplit(s[1..], sep);
      assert s == [s[0]] + s[1..];
      if s[0] == sep {
        JoinEmptyFirst(rest, sep);
      } else {
        JoinConsFirst(s[0], rest, sep);
      }
    }
  }

  /** Splitting on `sep` gives one piece more than there are separators. */
  lemma {:induction false} SplitCount(s: string, sep: char)
    ensures |Split(s, sep)| == Count(s, sep) + 1
  {
    if |s| > 0 {
      SplitCount(s[1..], sep);
    }
  }

  /** The initials of the split pieces are exactly the word-start characters. */
  lemma {:induction false} InitialsAreWordStarts(s: string, atStart: bool)
    ensures atStart ==> Initials(Split(s, ' ')) == WordStarts(s, true)
    ensures !atStart ==> Initials(Split(s, ' ')[1..]) == WordStarts(s, false)
  {
    if |s| > 0 {
      InitialsAreWordStarts(s[1..], true);
      InitialsAreWordStarts(s[1..], false);
      var rest := Split(s[1..], ' ');
      if s[0] == ' ' {
        assert Split(s, ' ') == [""] + rest;
        assert Split(s, ' ')[1..] == rest;
      } else {
        var w := [[s[0]] + rest[0]] + rest[1..];
        assert Split(s, ' ') == w;
        assert w[1..] == rest[1..];
      }
    }
  }

  /** The username is the word-start characters of the lower-cased owner,
      none of them upper case or a space, at most one per space-separated piece. */
  lemma UsernameIsWordInitials(owner: string)
    ensures Username(owner) == WordStarts(Lower(owner), true)
    ensures |Username(owner)| <= Count(owner, ' ') + 1
    ensures forall i :: 0 <= i < |Username(owner)| ==>
              !IsUpper(Username(owner)[i]) && Username(owner)[i] != ' '
  {
    InitialsAreWordStarts(Lower(owner), true);
    SplitCount(Lower(owner), ' ');
    LowerKeepsSpaces(owner);
    WordStartsChars(Lower(owner), true);
  }

  /** Lower-casing neither adds nor removes spaces. */
  lemma {:induction false} LowerKeepsSpaces(s: string)
    ensures Count(Lower(s), ' ') == Count(s, ' ')
  {
    if |s| > 0 {
      LowerKeepsSpaces(s[1..]);
      assert Lower(s)[1..] == Lower(s[1..]);
    }
  }

  /** Every word start is a non-space character taken from the string. */
  lemma {:induction false} WordStartsChars(s: string, atStart: bool)
    ensures forall i :: 0 <= i < |WordStarts(s, atStart)| ==>
              WordStarts(s, atStart)[i] in s && WordStarts(s, atStart)[i] != ' '
  {
    if |s| > 0 {
      WordStartsChars(s[1..], s[0] == ' ');
    }
  }

  /** Inside a word (not at a start), a run without spaces contributes nothing,
      and the first space opens the next word. */
  lemma {:induction false} WordStartsSkipWord(w: string, rest: string)
    requires ' ' !in w
    ensures WordStarts(w + rest, false) == WordStarts(rest, false)
  {
    if |w| > 0 {
      assert w[0] in w;
      assert (w + rest)[0] == w[0];
      assert (w + rest)[1..] == w[1..] + rest;
      WordStartsSkipWord(w[1..], rest);
    } else {
      assert w + rest == rest;
    }
  }

  /** A word followed by a space and more text contributes its first character. */
  lemma WordStartsOfWord(w: string, rest: string)
    requires |w| > 0 && ' ' !in w
    ensures WordStarts(w + " " + rest, true) == [w[0]] + WordStarts(rest, true)
    ensures WordStarts(w, true) == [w[0]]
  {
    assert (w + " " + rest)[1..] == w[1..] + (" " + rest);
    WordStartsSkipWord(w[1..], " " + rest);
    assert (" " + rest)[1..] == rest;
    WordStartsSkipWord(w[1..], "");
    assert w[1..] + "" == w[1..];
  }

  /** Lower-casing distributes over concatenation. */
  lemma LowerAppend(a: string, b: string)
    ensures Lower(a + b) == Lower(a) + Lower(b)
  {
  }

  lemma LowerFirstOwner()
    ensures Lower("Mustafa Abdullazada") == "mustafa" + " " + "abdullazada"
  {
    assert "Mustafa Abdullazada" == "Mustafa" + " " + "Abdullazada";
    LowerAppend("Mustafa" + " ", "Abdullazada");
    LowerAppend("Mustafa", " ");
    assert Lower("Mustafa") == "mustafa";
    assert Lower(" ") == " ";
    assert Lower("Abdullazada") == "abdullazada";
  }

  lemma LowerSecondOwner()
    ensures Lower("Jessica Davis") == "jessica" + " " + "davis"
  {
    assert "Jessica Davis" == "Jessica" + " " + "Davis";
    LowerAppend("Jessica" + " ", "Davis");
    LowerAppend("Jessica", " ");
    assert Lower("Jessica") == "jessica";
    assert Lower(" ") == " ";
    assert Lower("Davis") == "davis";
  }

  /** An owner whose lower-cased name is two words gets the first letter of
      each word. */
  lemma TwoWordUsername(owner: string, a: string, b: string)
    requires Lower(owner) == a + " " + b
    requires |a| > 0 && ' ' !in a && |b| > 0 && ' ' !in b
    ensures Username(owner) == [a[0], b[0]]
  {
    UsernameIsWordInitials(owner);
    WordStartsOfWord(a, b);
    WordStartsOfWord(b, "");
  }

  /** The first seeded owner gets "ma", the username the transfer rule singles out. */
  lemma SeedUsernameFirst()
    ensures Username("Mustafa Abdullazada") == "ma"
  {
    LowerFirstOwner();
    TwoWordUsername("Mustafa Abdullazada", "mustafa", "abdullazada");
  }

  /** The second seeded owner gets "jd". */
  lemma SeedUsernameSecond()
    ensures Username("Jessica Davis") == "jd"
  {
    LowerSecondOwner();
    TwoWordUsername("Jessica Davis", "jessica", "davis");
  }
}
