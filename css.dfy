/** The stylesheet rewrite of `download_css` (main.py:118-126). The substitution
    `re.sub("(.*)font-family:(.*);?\n", "", css)` can only match inside one line,
    since `.` does not match a newline, and has to end at that line's newline; so it
    deletes each newline-terminated line that contains "font-family:", and nothing
    else. One fixed `body` rule is then appended. */
module Css {
  import opened Strings

  const FontMarker: string := "font-family:"

  /** The rule appended to the stylesheet, character for character. */
  const BodyRule: string :=
    "\n        body {\n"
    + "            font-family: -apple-system, BlinkMacSystemFont, 'Segoe UI', Roboto, Oxygen, Ubuntu, Cantarell, 'Open Sans', 'Helvetica Neue', sans-serif;\n"
    + "        }\n    "

  /** A string with a newline splits into the line before it and the rest. */
  lemma SplitFirstLine(s: string)
    requires '\n' in s
    ensures var line := FirstField(s, '\n');
      |line| < |s| && s == line + "\n" + s[|line| + 1..]
  {
    FirstFieldIsPrefixBeforeSeparator(s, '\n');
    var line := FirstField(s, '\n');
    assert s == s[..|line|] + [s[|line|]] + s[|line| + 1..];
  }

  /** The substitution, scanning the stylesheet line by line: a terminated line is
      dropped when it holds the marker; the last, unterminated part stays. */
  function DropFontLines(s: string): string {
    DropMarkedLines(s, FontMarker)
  }

  /** The same scan for any marker. */
  function DropMarkedLines(s: string, marker: string): string
    decreases |s|
  {
    if '\n' !in s then s
    else
      SplitFirstLine(s);
      var line := FirstField(s, '\n');
      var rest := s[|line| + 1..];
      (if Contains(line, marker) then "" else line + "\n") + DropMarkedLines(rest, marker)
  }

  /** The stylesheet `download_css` writes back. */
  function CleanCss(css: string): (r: string)
    ensures EndsWith(r, BodyRule)
    ensures r[..|r| - |BodyRule|] == DropFontLines(css)
  {
    var r := DropFontLines(css) + BodyRule;
    assert r[|r| - |BodyRule|..] == BodyRule;
    r
  }

  /** Reference definition: the lines without the marker, in their order. */
  function KeptLines(lines: seq<string>, marker: string): (r: seq<string>)
    ensures forall k :: 0 <= k < |r| ==> r[k] in lines && !Contains(r[k], marker)
    ensures forall k :: 0 <= k < |lines| && !Contains(lines[k], marker) ==> lines[k] in r
  {
    if lines == [] then []
    else
      var rest := KeptLines(lines[1..], marker);
      assert forall k :: 1 <= k < |lines| ==> lines[k] == lines[1..][k - 1];
      if Contains(lines[0], marker) then rest else [lines[0]] + rest
  }

  /** One step of the scan: the first line is dropped or kept, and the scan goes on
      after its newline. */
  lemma DropFirstLine(line: string, rest: string, marker: string)
    requires '\n' !in line
    ensures DropMarkedLines(line + "\n" + rest, marker)
         == (if Contains(line, marker) then "" else line + "\n") + DropMarkedLines(rest, marker)
  {
    var s := line + "\n" + rest;
    assert s == line + ['\n'] + rest;
    assert s[|line|] == '\n';
    SplitAfterField(line, '\n', rest);
    assert FirstField(s, '\n') == line;
    assert s[|line| + 1..] == rest;
  }

  /** Putting a line in front of a sequence of lines leaves its last line last. */
  lemma ConsSplitsAtEnd(x: string, ys: seq<string>)
    requires |ys| >= 1
    ensures var xs := [x] + ys;
      xs[..|xs| - 1] == [x] + ys[..|ys| - 1] && xs[|xs| - 1] == ys[|ys| - 1]
      && ([x] + ys[..|ys| - 1])[0] == x && ([x] + ys[..|ys| - 1])[1..] == ys[..|ys| - 1]
  {
  }

  /** The lines of the result are the newline-terminated lines of the input that do
      not contain the marker, in their order, followed by the input's last,
      unterminated part. */
  lemma {:induction false} DropKeepsOtherLines(s: string, marker: string)
    ensures var lines := Split(s, '\n');
      Split(DropMarkedLines(s, marker), '\n') == KeptLines(lines[..|lines| - 1], marker) + [lines[|lines| - 1]]
    decreases |s|
  {
    if '\n' !in s {
      assert Split(s, '\n')[..0] == [];
    } else {
      var line, rest := FirstLine(s);
      var restLines := Split(rest, '\n');
      var d := DropMarkedLines(rest, marker);
      DropKeepsOtherLines(rest, marker);
      assert s == line + ['\n'] + rest;
      SplitAfterField(line, '\n', rest);
      var head := DropLineOf(s, line, rest, marker);
      DropLinesStep(line, restLines, d, head, marker);
      var lines := [line] + restLines;
      assert Split(s, '\n') == lines;
      assert Split(DropMarkedLines(s, marker), '\n') == Split(head + d, '\n');
    }
  }

  /** The step of the lemma above: the first line in front of a scan that already
      keeps the right lines. */
  lemma DropLinesStep(line: string, restLines: seq<string>, d: string, head: string, marker: string)
    requires '\n' !in line && |restLines| >= 1
    requires Split(d, '\n') == KeptLines(restLines[..|restLines| - 1], marker) + [restLines[|restLines| - 1]]
    requires head == if Contains(line, marker) then "" else line + "\n"
    ensures var lines := [line] + restLines;
      Split(head + d, '\n') == KeptLines(lines[..|lines| - 1], marker) + [lines[|lines| - 1]]
  {
    var restInit, restLast := restLines[..|restLines| - 1], restLines[|restLines| - 1];
    ConsSplitsAtEnd(line, restLines);
    if Contains(line, marker) {
      assert head + d == d;
      assert KeptLines([line] + restInit, marker) == KeptLines(restInit, marker);
    } else {
      KeptLineCase(line, d, restInit, restLast, marker);
    }
  }

  /** The step of the lemma above for a line that is kept. */
  lemma KeptLineCase(line: string, d: string, restInit: seq<string>, restLast: string, marker: string)
    requires '\n' !in line && !Contains(line, marker)
    requires Split(d, '\n') == KeptLines(restInit, marker) + [restLast]
    ensures Split(line + "\n" + d, '\n') == KeptLines([line] + restInit, marker) + [restLast]
  {
    assert ([line] + restInit)[1..] == restInit;
    calc {
      Split(line + "\n" + d, '\n');
      { SplitAfterField(line, '\n', d); }
      [line] + Split(d, '\n');
      [line] + (KeptLines(restInit, marker) + [restLast]);
      ([line] + KeptLines(restInit, marker)) + [restLast];
      KeptLines([line] + restInit, marker) + [restLast];
    }
  }

  /** The same for the stylesheet's marker. */
  lemma DropFontLinesKeepsOtherLines(css: string)
    ensures var lines := Split(css, '\n');
      Split(DropFontLines(css), '\n') == KeptLines(lines[..|lines| - 1], FontMarker) + [lines[|lines| - 1]]
  {
    DropKeepsOtherLines(css, FontMarker);
  }

  /** Text that ends with a newline is filtered line by line, independently of what
      follows it. */
  lemma {:induction false} DropAtLineStart(pre: string, post: string, marker: string)
    requires pre == "" || pre[|pre| - 1] == '\n'
    ensures DropMarkedLines(pre + post, marker) == DropMarkedLines(pre, marker) + DropMarkedLines(post, marker)
    decreases |pre|
  {
    if pre == "" {
      assert pre + post == post;
    } else {
      assert pre[|pre| - 1] in pre;
      var line, rest := FirstLine(pre);
      if rest != [] {
        assert rest[|rest| - 1] == pre[|pre| - 1];
      }
      var whole, tail := pre + post, rest + post;
      assert whole == line + "\n" + tail;
      var head := DropLineOf(whole, line, tail, marker);
      var head' := DropLineOf(pre, line, rest, marker);
      DropAtLineStart(rest, post, marker);
      Regroup(DropMarkedLines(whole, marker), DropMarkedLines(pre, marker), DropMarkedLines(tail, marker),
              head, DropMarkedLines(rest, marker), DropMarkedLines(post, marker));
    }
  }

  lemma Regroup(x: string, y: string, z: string, h: string, a: string, b: string)
    requires x == h + z && z == a + b && y == h + a
    ensures x == y + b
  {
  }

  /** The first line of a string with a newline, and what follows that newline. */
  lemma FirstLine(s: string) returns (line: string, rest: string)
    requires '\n' in s
    ensures '\n' !in line && s == line + "\n" + rest && |rest| < |s|
  {
    SplitFirstLine(s);
    FirstFieldIsPrefixBeforeSeparator(s, '\n');
    line, rest := FirstField(s, '\n'), s[|FirstField(s, '\n')| + 1..];
  }

  /** One step of the scan, for a string already known to start with `line`. */
  lemma DropLineOf(s: string, line: string, rest: string, marker: string) returns (head: string)
    requires '\n' !in line && s == line + "\n" + rest
    ensures head == if Contains(line, marker) then "" else line + "\n"
    ensures DropMarkedLines(s, marker) == head + DropMarkedLines(rest, marker)
  {
    DropFirstLine(line, rest, marker);
    head := if Contains(line, marker) then "" else line + "\n";
  }

  /** A newline-terminated line that holds the marker, wherever it stands, is gone
      from the result, and the text around it is filtered as before. */
  lemma FontLineIsDropped(pre: string, line: string, post: string)
    requires '\n' !in line && Contains(line, FontMarker)
    requires pre == "" || pre[|pre| - 1] == '\n'
    ensures DropFontLines(pre + line + "\n" + post) == DropFontLines(pre) + DropFontLines(post)
  {
    var s := line + "\n" + post;
    assert pre + line + "\n" + post == pre + s;
    DropAtLineStart(pre, s, FontMarker);
    DropFirstLine(line, post, FontMarker);
  }
}
