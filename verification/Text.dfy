/** JavaScript's `text.split('\n')` and its inverse, `lines.join('\n')`. */
module Text {

  function Split(s: string): (lines: seq<string>)
    ensures |lines| >= 1
  {
    if s == "" then [""]
    else
      var rest := Split(s[1..]);
      if s[0] == '\n' then [""] + rest else [[s[0]] + rest[0]] + rest[1..]
  }

  function Join(lines: seq<string>): string {
    if lines == [] then ""
    else if |lines| == 1 then lines[0]
    else lines[0] + "\n" + Join(lines[1..])
  }

  /** Splitting loses nothing. */
  lemma {:induction false} JoinSplit(s: string)
    ensures Join(Split(s)) == s
  {
    if s != "" {
      JoinSplit(s[1..]);
      var rest := Split(s[1..]);
      if s[0] == '\n' {
        assert ([""] + rest)[1..] == rest;
        assert s == "\n" + s[1..];
      } else {
        var lines := [[s[0]] + rest[0]] + rest[1..];
        assert lines[1..] == rest[1..];
        assert s == [s[0]] + s[1..];
      }
    }
  }

  /** And it is the only list of newline-free lines that joins back to the text. */
  lemma {:induction false} SplitJoin(lines: seq<string>)
    requires lines != [] && forall line <- lines :: '\n' !in line
    ensures Split(Join(lines)) == lines
    decreases |lines|, |lines[0]|
  {
    if lines[0] != "" {
      var shorter := [lines[0][1..]] + lines[1..];
      forall line | line in shorter ensures '\n' !in line {
        if line == lines[0][1..] { assert lines[0] in lines; } else { assert line in lines; }
      }
      assert lines[0][0] != '\n' by { assert lines[0] in lines; }
      SplitJoin(shorter);
      assert Join(lines) == [lines[0][0]] + Join(shorter) by {
        assert shorter[1..] == lines[1..];
        assert lines[0] == [lines[0][0]] + lines[0][1..];
      }
      assert Join(lines)[1..] == Join(shorter);
      assert lines == [[lines[0][0]] + shorter[0]] + shorter[1..];
    } else if |lines| > 1 {
      forall line | line in lines[1..] ensures '\n' !in line { assert line in lines; }
      SplitJoin(lines[1..]);
      assert Join(lines) == "\n" + Join(lines[1..]);
      assert Join(lines)[1..] == Join(lines[1..]);
      assert lines == [""] + lines[1..];
    }
  }
}
