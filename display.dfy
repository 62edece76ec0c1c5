/** What the command prints for a successful lookup: a header naming the title, a
    `=` rule under it, the "Quick Definitions" label with its own rule, and the
    quick definitions separated by rules of `columns` dashes. Colouring is taken as
    the identity. */
module Display {

  const Header: string := "Results for: "
  const Label: string := "Quick Definitions"

  /** `c * n` on a one-character string. */
  function Repeat(c: char, n: nat): (r: string)
    ensures |r| == n
    ensures forall i :: 0 <= i < n ==> r[i] == c
  {
    seq(n, _ => c)
  }

  /** `Array#join(sep)` on strings. */
  function Join(parts: seq<string>, sep: string): string {
    if parts == [] then []
    else if |parts| == 1 then parts[0]
    else parts[0] + sep + Join(parts[1..], sep)
  }

  /** `Kernel#puts` of one string: the string, followed by a line feed unless it
      already ends with one. */
  function Puts(s: string): (out: string)
    ensures |out| > 0 && out[|out| - 1] == '\n'
    ensures |out| == if s != [] && s[|s| - 1] == '\n' then |s| else |s| + 1
    ensures out[..|s|] == s
  {
    if s != [] && s[|s| - 1] == '\n' then s else s + "\n"
  }

  /** The separator `"\n" + "-" * columns + "\n"` put between two quick definitions:
      a line feed, exactly `columns` dashes, and a line feed. */
  function Separator(columns: nat): (sep: string)
    ensures |sep| == columns + 2
    ensures sep[0] == '\n' && sep[columns + 1] == '\n'
    ensures forall i :: 1 <= i <= columns ==> sep[i] == '-'
  {
    "\n" + Repeat('-', columns) + "\n"
  }

  /** The text the eight `puts` calls of a successful lookup write. It opens with an
      empty line and the header naming the title, and ends with a line feed. */
  function Screen(title: string, defs: seq<string>, columns: nat): (out: string)
    ensures |out| > 0 && out[0] == '\n' && out[|out| - 1] == '\n'
  {
    Puts("")
    + Puts(Header + title)
    + Puts(Repeat('=', |title| + 13))
    + Puts("")
    + Puts(Label)
    + Puts(Repeat('=', 17))
    + Puts("")
    + Puts(Join(defs, Separator(columns)))
  }

  /** The lines the joined definitions occupy: the definitions in order with a rule
      of `columns` dashes between each two, or one empty line when there are none. */
  function Body(defs: seq<string>, columns: nat): (lines: seq<string>)
    ensures |lines| == if defs == [] then 1 else 2 * |defs| - 1
    ensures defs == [] ==> lines == [""]
    ensures defs != [] ==> forall i :: 0 <= i < |lines| ==>
              lines[i] == if i % 2 == 0 then defs[i / 2] else Repeat('-', columns)
  {
    if defs == [] then [""]
    else if |defs| == 1 then [defs[0]]
    else
      var rest := Body(defs[1..], columns);
      var lines := [defs[0], Repeat('-', columns)] + rest;
      assert forall i :: 2 <= i < |lines| ==> lines[i] == rest[i - 2];
      lines
  }

  /** Body line `2k` is definition `k`, and line `2k + 1` the rule after it. */
  lemma BodyPairs(defs: seq<string>, columns: nat)
    ensures forall k :: 0 <= k < |defs| ==> Body(defs, columns)[2 * k] == defs[k]
    ensures forall k :: 0 <= k < |defs| - 1 ==> Body(defs, columns)[2 * k + 1] == Repeat('-', columns)
  {
    var body := Body(defs, columns);
    forall k | 0 <= k < |defs| ensures body[2 * k] == defs[k] {
      assert (2 * k) % 2 == 0 && (2 * k) / 2 == k;
    }
    forall k | 0 <= k < |defs| - 1 ensures body[2 * k + 1] == Repeat('-', columns) {
      assert (2 * k + 1) % 2 == 1;
    }
  }

  /** The printed lines of a successful lookup. The rule under the header is exactly
      as long as the header line, the rule under the label as long as the label
      (17), and definition `k` is line `7 + 2k` with a dash rule after every
      definition but the last. */
  function Lines(title: string, defs: seq<string>, columns: nat): (lines: seq<string>)
    ensures |lines| == 7 + (if defs == [] then 1 else 2 * |defs| - 1)
    ensures lines[0] == "" && lines[3] == "" && lines[6] == ""
    ensures lines[1] == Header + title
    ensures |lines[2]| == |lines[1]| == |title| + 13
    ensures forall i :: 0 <= i < |lines[2]| ==> lines[2][i] == '='
    ensures lines[4] == Label
    ensures |lines[5]| == |lines[4]| == 17
    ensures forall i :: 0 <= i < |lines[5]| ==> lines[5][i] == '='
    ensures defs == [] ==> lines[7] == ""
    ensures forall k :: 0 <= k < |defs| ==> lines[7 + 2 * k] == defs[k]
    ensures forall k :: 0 <= k < |defs| - 1 ==> lines[8 + 2 * k] == Repeat('-', columns)
  {
    var head := ["", Header + title, Repeat('=', |title| + 13), "", Label, Repeat('=', 17), ""];
    var body := Body(defs, columns);
    BodyPairs(defs, columns);
    var lines := head + body;
    assert forall k :: 0 <= k < |defs| ==> lines[7 + 2 * k] == body[2 * k];
    assert forall k :: 0 <= k < |defs| - 1 ==> lines[8 + 2 * k] == body[2 * k + 1];
    lines
  }

  /** The text of a sequence of lines, each ended by a line feed. */
  function Unlines(lines: seq<string>): string {
    if lines == [] then [] else lines[0] + "\n" + Unlines(lines[1..])
  }

  lemma {:induction false} UnlinesConcat(a: seq<string>, b: seq<string>)
    ensures Unlines(a + b) == Unlines(a) + Unlines(b)
    decreases |a|
  {
    if a == [] {
      assert a + b == b;
    } else {
      assert (a + b)[1..] == a[1..] + b;
      UnlinesConcat(a[1..], b);
    }
  }

  /** The joined definitions followed by the line feed `puts` adds are the body lines. */
  lemma {:induction false} JoinIsBody(defs: seq<string>, columns: nat)
    ensures Join(defs, Separator(columns)) + "\n" == Unlines(Body(defs, columns))
    decreases |defs|
  {
    if |defs| == 1 {
      assert Unlines([defs[0]]) == defs[0] + "\n" + Unlines([]);
    } else if |defs| > 1 {
      var rule := Repeat('-', columns);
      JoinIsBody(defs[1..], columns);
      UnlinesConcat([defs[0], rule], Body(defs[1..], columns));
      assert Unlines([defs[0], rule]) == defs[0] + "\n" + (rule + "\n" + Unlines([]));
    }
  }

  lemma PutsLine(s: string)
    requires forall i :: 0 <= i < |s| ==> s[i] != '\n'
    ensures Puts(s) == s + "\n"
  {
  }

  /** When neither the title nor any definition contains a line feed, the printed
      text is exactly the lines of `Lines`, each ended by a line feed. */
  lemma ScreenIsLines(title: string, defs: seq<string>, columns: nat)
    requires forall i :: 0 <= i < |title| ==> title[i] != '\n'
    requires forall k :: 0 <= k < |defs| ==> defs[k] != []
    requires forall k, i :: 0 <= k < |defs| && 0 <= i < |defs[k]| ==> defs[k][i] != '\n'
    ensures Screen(title, defs, columns) == Unlines(Lines(title, defs, columns))
  {
    var head := ["", Header + title, Repeat('=', |title| + 13), "", Label, Repeat('=', 17), ""];
    var body := Body(defs, columns);
    assert Lines(title, defs, columns) == head + body;
    HeadText(title, head);
    BodyText(defs, columns);
    UnlinesConcat(head, body);
  }

  /** The first seven `puts` calls write the seven header lines. */
  lemma HeadText(title: string, head: seq<string>)
    requires forall i :: 0 <= i < |title| ==> title[i] != '\n'
    requires head == ["", Header + title, Repeat('=', |title| + 13), "", Label, Repeat('=', 17), ""]
    ensures Unlines(head) == Puts("") + Puts(Header + title) + Puts(Repeat('=', |title| + 13)) + Puts("")
                             + Puts(Label) + Puts(Repeat('=', 17)) + Puts("")
  {
    PutsLine(Header + title);
    PutsLine(Repeat('=', |title| + 13));
    PutsLine(Label);
    PutsLine(Repeat('=', 17));
    UnlinesHead(head);
  }

  /** The last `puts` call writes the body lines. */
  lemma BodyText(defs: seq<string>, columns: nat)
    requires forall k :: 0 <= k < |defs| ==> defs[k] != []
    requires forall k, i :: 0 <= k < |defs| && 0 <= i < |defs[k]| ==> defs[k][i] != '\n'
    ensures Puts(Join(defs, Separator(columns))) == Unlines(Body(defs, columns))
  {
    var joined := Join(defs, Separator(columns));
    assert Puts(joined) == joined + "\n" by {
      if defs != [] {
        var last := defs[|defs| - 1];
        JoinEnd(defs, Separator(columns));
        assert joined[|joined| - 1] == last[|last| - 1];
      }
    }
    JoinIsBody(defs, columns);
  }

  /** The last part closes the joined text. */
  lemma JoinEnd(parts: seq<string>, sep: string)
    requires parts != []
    ensures |Join(parts, sep)| >= |parts[|parts| - 1]|
    ensures Join(parts, sep)[|Join(parts, sep)| - |parts[|parts| - 1]|..] == parts[|parts| - 1]
  {
    if |parts| > 1 {
      JoinEnd(parts[1..], sep);
    }
  }

  lemma UnlinesHead(h: seq<string>)
    requires |h| == 7
    ensures Unlines(h) == h[0] + "\n" + (h[1] + "\n") + (h[2] + "\n") + (h[3] + "\n")
                          + (h[4] + "\n") + (h[5] + "\n") + (h[6] + "\n")
  {
    assert Unlines(h[6..]) == h[6] + "\n" by { assert h[6..][1..] == []; }
    assert Unlines(h[5..]) == h[5] + "\n" + Unlines(h[6..]) by { assert h[5..][1..] == h[6..]; }
    assert Unlines(h[4..]) == h[4] + "\n" + Unlines(h[5..]) by { assert h[4..][1..] == h[5..]; }
    assert Unlines(h[3..]) == h[3] + "\n" + Unlines(h[4..]) by { assert h[3..][1..] == h[4..]; }
    assert Unlines(h[2..]) == h[2] + "\n" + Unlines(h[3..]) by { assert h[2..][1..] == h[3..]; }
    assert Unlines(h) == h[0] + "\n" + (h[1] + "\n" + Unlines(h[2..]));
  }
}
