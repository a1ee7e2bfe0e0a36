/** The initials shown in an employee's avatar circle: the first character
    of every space-separated part of the name, joined. An empty part (from
    leading, trailing or doubled spaces) has no first character and adds
    nothing. */
module Avatar {
  import opened Strings

  /** The first character of a part, or nothing for an empty part. */
  function FirstChar(part: string): (r: string)
    ensures |r| <= 1
    ensures r == [] <==> part == []
  {
    if part == [] then [] else [part[0]]
  }

  function FirstChars(parts: seq<string>): (r: string)
    ensures |r| <= |parts|
  {
    if parts == [] then [] else FirstChar(parts[0]) + FirstChars(parts[1..])
  }

  /** The name split at every single space, the first character of each
      part taken, and the results concatenated. */
  function Initials(name: string): (r: string)
    ensures ' ' !in r
  {
    var parts := Split(name, ' ');
    NoSpaceInFirstChars(parts);
    FirstChars(parts)
  }

  lemma {:induction false} NoSpaceInFirstChars(parts: seq<string>)
    requires forall i :: 0 <= i < |parts| ==> ' ' !in parts[i]
    ensures ' ' !in FirstChars(parts)
  {
    if parts != [] {
      assert parts[0] != [] ==> FirstChar(parts[0]) == [parts[0][0]] && parts[0][0] in parts[0];
      NoSpaceInFirstChars(parts[1..]);
    }
  }

  /** An independent reading of the same thing: scan the name, emitting each
      non-space character that follows a space or starts the name. */
  function WordStarts(name: string, atBoundary: bool): string {
    if name == [] then []
    else
      (if name[0] != ' ' && atBoundary then [name[0]] else [])
      + WordStarts(name[1..], name[0] == ' ')
  }

  /** The initials are exactly the characters that start a word. */
  lemma InitialsAreWordStarts(name: string)
    ensures Initials(name) == WordStarts(name, true)
  {
    WordStartsSplit(name);
  }

  lemma {:induction false} WordStartsSplit(name: string)
    ensures WordStarts(name, true) == FirstChars(Split(name, ' '))
    ensures WordStarts(name, false) == FirstChars(Split(name, ' ')[1..])
  {
    if name != [] {
      WordStartsSplit(name[1..]);
      var rest := Split(name[1..], ' ');
      if name[0] == ' ' {
        assert Split(name, ' ') == [""] + rest;
        assert Split(name, ' ')[1..] == rest;
      } else {
        var parts := Split(name, ' ');
        assert parts == [[name[0]] + rest[0]] + rest[1..];
        assert parts[1..] == rest[1..];
      }
    }
  }
}
