/**
 * The interface list served at `/list`: the output of listing the tool's
 * database directory, with surrounding white space trimmed, split at every
 * newline. Nothing filters the pieces, so a blank line in the middle stays a
 * blank name and empty output gives one empty name. Running the shell
 * pipeline and encoding the list as JSON are outside the model.
 */
module Interfaces {
  import opened Strings

  /** Lines 141-142: `strings.Split(strings.TrimSpace(out), "\n")`. */
  function IfaceList(out: string): (names: seq<string>)
    ensures JoinWith(names, '\n') == TrimSpace(out)
    ensures |names| == Count(TrimSpace(out), '\n') + 1
    ensures forall i | 0 <= i < |names| :: '\n' !in names[i]
  {
    var trimmed := TrimSpace(out);
    SplitJoin(trimmed, '\n');
    Split(trimmed, '\n')
  }

  /** Output that is empty or only white space (as when the command fails) gives `[""]`. */
  lemma BlankOutputGivesOneEmptyName(out: string)
    requires AllSpace(out)
    ensures IfaceList(out) == [""]
  {
  }

  /**
   * The names listed one per line, with any white space before the first and
   * after the last, come back in order. Names in the middle may be empty:
   * a blank line is kept as an empty name.
   */
  lemma {:induction false} IfaceListOfLines(lead: string, names: seq<string>, trail: string)
    requires AllSpace(lead) && AllSpace(trail)
    requires names != [] && forall i | 0 <= i < |names| :: '\n' !in names[i]
    requires names[0] != [] && !IsSpace(names[0][0])
    requires names[|names| - 1] != [] && !IsSpace(names[|names| - 1][|names[|names| - 1]| - 1])
    ensures IfaceList(lead + JoinWith(names, '\n') + trail) == names
  {
    var body := JoinWith(names, '\n');
    JoinEnds(names, '\n');
    TrimSpaceOfPadded(lead, body, trail);
    SplitOfJoin(names, '\n');
  }

  /** The joined text starts with the first piece's first character and ends with the last piece's last one. */
  lemma {:induction false} JoinEnds(parts: seq<string>, sep: char)
    requires parts != [] && parts[0] != [] && parts[|parts| - 1] != []
    ensures var s := JoinWith(parts, sep);
            s != [] && s[0] == parts[0][0] && s[|s| - 1] == parts[|parts| - 1][|parts[|parts| - 1]| - 1]
  {
    if |parts| > 1 {
      var rest := JoinWith(parts[1..], sep);
      if |parts| > 2 {
        JoinEndsLast(parts[1..], sep);
      }
      assert JoinWith(parts, sep) == parts[0] + [sep] + rest;
    }
  }

  /** The joined text ends with the last piece when that piece is non-empty. */
  lemma {:induction false} JoinEndsLast(parts: seq<string>, sep: char)
    requires parts != [] && parts[|parts| - 1] != []
    ensures var s := JoinWith(parts, sep);
            s != [] && s[|s| - 1] == parts[|parts| - 1][|parts[|parts| - 1]| - 1]
  {
    if |parts| > 1 {
      JoinEndsLast(parts[1..], sep);
      assert parts[1..][|parts[1..]| - 1] == parts[|parts| - 1];
    }
  }

  /** Example: typical directory listing output, newline-terminated. */
  lemma {:induction false} TwoInterfaces()
    ensures IfaceList("eth0\nwlan0\n") == ["eth0", "wlan0"]
  {
    var names: seq<string> := ["eth0", "wlan0"];
    assert JoinWith(names[1..], '\n') == "wlan0";
    assert JoinWith(names, '\n') == "eth0\nwlan0";
    assert '\n' !in names[0] && '\n' !in names[1];
    assert !IsSpace('e') && !IsSpace('0') && AllSpace("\n");
    IfaceListOfLines("", names, "\n");
    assert "" + "eth0\nwlan0" + "\n" == "eth0\nwlan0\n";
  }

  /** Example: a blank line in the middle becomes an empty name. */
  lemma {:induction false} BlankLineKept()
    ensures IfaceList("eth0\n\nwlan0") == ["eth0", "", "wlan0"]
  {
    var names: seq<string> := ["eth0", "", "wlan0"];
    assert JoinWith(names[2..], '\n') == "wlan0";
    assert JoinWith(names[1..], '\n') == "\nwlan0";
    assert JoinWith(names, '\n') == "eth0\n\nwlan0";
    assert '\n' !in names[0] && '\n' !in names[1] && '\n' !in names[2];
    assert names[0][0] == 'e' && names[2][|names[2]| - 1] == '0';
    assert !IsSpace('e') && !IsSpace('0');
    IfaceListOfLines("", names, "");
    assert "" + "eth0\n\nwlan0" + "" == "eth0\n\nwlan0";
  }
}
