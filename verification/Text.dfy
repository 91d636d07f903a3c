/** Blanks, as Python's string methods and regular expressions know them. */
module Text {

  predicate Space(c: char)
  {
    var n := c as int;
    || 0x09 <= n <= 0x0d || 0x1c <= n <= 0x20 || n == 0x85 || n == 0xa0 || n == 0x1680
    || 0x2000 <= n <= 0x200a || n == 0x2028 || n == 0x2029 || n == 0x202f || n == 0x205f || n == 0x3000
  }

  function SkipSpace(line: string): string
  {
    if line != [] && Space(line[0]) then SkipSpace(line[1..]) else line
  }

  function DropSpace(line: string): string
  {
    if line != [] && Space(line[|line| - 1]) then DropSpace(line[..|line| - 1]) else line
  }

  /** The line without the blanks at either end. */
  function Strip(line: string): string
  {
    DropSpace(SkipSpace(line))
  }

  ghost predicate Blank(s: string)
  {
    forall i :: 0 <= i < |s| ==> Space(s[i])
  }

  /** No blank at either end. */
  ghost predicate Trim(s: string)
  {
    s != "" ==> !Space(s[0]) && !Space(s[|s| - 1])
  }

  lemma {:induction false} SkipsBlanks(line: string) returns (front: string)
    ensures Blank(front) && line == front + SkipSpace(line)
    ensures SkipSpace(line) != "" ==> !Space(SkipSpace(line)[0])
  {
    if line != [] && Space(line[0]) {
      var rest := SkipsBlanks(line[1..]);
      front := [line[0]] + rest;
    } else {
      front := "";
    }
  }

  lemma {:induction false} DropsBlanks(line: string) returns (back: string)
    ensures Blank(back) && line == DropSpace(line) + back
    ensures DropSpace(line) != "" ==> !Space(DropSpace(line)[|DropSpace(line)| - 1])
  {
    if line != [] && Space(line[|line| - 1]) {
      var rest := DropsBlanks(line[..|line| - 1]);
      back := rest + [line[|line| - 1]];
    } else {
      back := "";
    }
  }

  /** Only blanks go, and all of them at both ends. */
  lemma StripTrims(line: string) returns (front: string, back: string)
    ensures line == front + Strip(line) + back && Blank(front) && Blank(back) && Trim(Strip(line))
  {
    front := SkipsBlanks(line);
    back := DropsBlanks(SkipSpace(line));
    var s := Strip(line);
    if s != "" {
      assert SkipSpace(line)[0] == s[0];
    }
  }
}
