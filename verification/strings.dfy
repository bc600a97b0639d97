/**
 * The parts of Go's `strings` and `unicode` packages the server relies on:
 * white space as `unicode.IsSpace` defines it, `strings.Fields`,
 * `strings.TrimSpace` and `strings.Split` with a one-character separator.
 * `JoinWith`, which the server does not call, states their round trips.
 */
module Strings {

  /**
   * `unicode.IsSpace`: the Latin-1 spaces '\t', '\n', '\v', '\f', '\r', ' ',
   * U+0085 and U+00A0, and above Latin-1 the Unicode White_Space property.
   */
  predicate IsSpace(c: char) {
    var n := c as int;
    (0x09 <= n <= 0x0D) || n == 0x20 || n == 0x85 || n == 0xA0 || n == 0x1680
    || (0x2000 <= n <= 0x200A) || n == 0x2028 || n == 0x2029 || n == 0x202F
    || n == 0x205F || n == 0x3000
  }

  /**
   * Within Latin-1 the white space is exactly the eight listed characters;
   * nothing above U+3000 is white space.
   */
  lemma IsSpaceTable(c: char)
    ensures c as int < 0x100 ==> (IsSpace(c) <==> c in "\t\n\U{000B}\U{000C}\r \U{0085}\U{00A0}")
    ensures c as int > 0x3000 ==> !IsSpace(c)
  {
  }

  predicate NoSpace(s: string) {
    forall i | 0 <= i < |s| :: !IsSpace(s[i])
  }

  predicate AllSpace(s: string) {
    forall i | 0 <= i < |s| :: IsSpace(s[i])
  }

  lemma AllSpaceCons(c: char, t: string)
    requires IsSpace(c) && AllSpace(t)
    ensures AllSpace([c] + t)
  {
    forall i | 0 <= i < |t| + 1 ensures IsSpace(([c] + t)[i]) {
      if i > 0 { assert ([c] + t)[i] == t[i - 1]; }
    }
  }

  // ---------------------------------------------------------------- TrimSpace

  /** Drops the leading white space: what is left is a suffix of `s`. */
  function TrimLeftSpace(s: string): (r: string)
    ensures |r| <= |s| && r == s[|s| - |r|..]
    ensures AllSpace(s[..|s| - |r|])
    ensures r == [] || !IsSpace(r[0])
  {
    if s != [] && IsSpace(s[0]) then
      var r := TrimLeftSpace(s[1..]);
      assert s[..|s| - |r|] == [s[0]] + s[1..][..|s| - 1 - |r|];
      AllSpaceCons(s[0], s[1..][..|s| - 1 - |r|]);
      r
    else
      s
  }

  /** Drops the trailing white space: what is left is a prefix of `s`. */
  function TrimRightSpace(s: string): (r: string)
    ensures |r| <= |s| && r == s[..|r|]
    ensures AllSpace(s[|r|..])
    ensures r == [] || !IsSpace(r[|r| - 1])
  {
    if s != [] && IsSpace(s[|s| - 1]) then
      var r := TrimRightSpace(s[..|s| - 1]);
      assert s[|r|..] == s[..|s| - 1][|r|..] + [s[|s| - 1]];
      r
    else
      s
  }

  /**
   * `strings.TrimSpace`: the text between the leading and the trailing white
   * space. The result is a contiguous piece of `s` with only white space
   * around it, and it neither starts nor ends with white space.
   */
  function TrimSpace(s: string): (r: string)
    ensures var i := LeadingSpace(s);
            && i + |r| <= |s| && s[i..i + |r|] == r
            && AllSpace(s[..i]) && AllSpace(s[i + |r|..])
    ensures r == [] || (!IsSpace(r[0]) && !IsSpace(r[|r| - 1]))
  {
    var left := TrimLeftSpace(s);
    var r := TrimRightSpace(left);
    SliceOfSuffix(s, |s| - |left|, |r|);
    r
  }

  lemma SliceOfSuffix(s: string, i: nat, n: nat)
    requires i <= |s| && n <= |s| - i
    ensures s[i..][..n] == s[i..i + n] && s[i..][n..] == s[i + n..]
  {
  }

  /** How many white-space characters `s` starts with. */
  function LeadingSpace(s: string): nat {
    |s| - |TrimLeftSpace(s)|
  }

  /** Text that starts and ends with a non-space is left as it is. */
  lemma TrimSpaceKeepsTrimmed(s: string)
    requires s == [] || (!IsSpace(s[0]) && !IsSpace(s[|s| - 1]))
    ensures TrimSpace(s) == s
  {
  }

  /** Trimming twice is trimming once. */
  lemma {:induction false} TrimSpaceIdempotent(s: string)
    ensures TrimSpace(TrimSpace(s)) == TrimSpace(s)
  {
    TrimSpaceKeepsTrimmed(TrimSpace(s));
  }

  lemma {:induction false} TrimRightPadding(s: string, pad: string)
    requires s != [] && !IsSpace(s[|s| - 1]) && AllSpace(pad)
    ensures TrimRightSpace(s + pad) == s
  {
    if pad != [] {
      assert (s + pad)[..|s + pad| - 1] == s + pad[..|pad| - 1];
      TrimRightPadding(s, pad[..|pad| - 1]);
    } else {
      assert s + pad == s;
    }
  }

  lemma {:induction false} TrimLeftPadding(pad: string, s: string)
    requires s != [] && !IsSpace(s[0]) && AllSpace(pad)
    ensures TrimLeftSpace(pad + s) == s
  {
    if pad != [] {
      assert (pad + s)[1..] == pad[1..] + s;
      TrimLeftPadding(pad[1..], s);
    } else {
      assert pad + s == s;
    }
  }

  /**
   * White space around a text that starts and ends with a non-space is
   * exactly what `TrimSpace` removes.
   */
  lemma {:induction false} TrimSpaceOfPadded(lead: string, s: string, trail: string)
    requires AllSpace(lead) && AllSpace(trail)
    requires s != [] && !IsSpace(s[0]) && !IsSpace(s[|s| - 1])
    ensures TrimSpace(lead + s + trail) == s
  {
    assert lead + s + trail == lead + (s + trail);
    assert (s + trail)[0] == s[0];
    TrimLeftPadding(lead, s + trail);
    TrimRightPadding(s, trail);
  }

  // ------------------------------------------------------------------- Fields

  /** The field under construction, if any, as a list of zero or one field. */
  function Flush(cur: string): seq<string> {
    if cur == [] then [] else [cur]
  }

  /**
   * The scan behind `strings.Fields`: `cur` is the run of non-space
   * characters read so far; a space (or the end) closes it.
   */
  function FieldsFrom(s: string, cur: string): (r: seq<string>)
    requires NoSpace(cur)
    ensures forall i | 0 <= i < |r| :: r[i] != [] && NoSpace(r[i])
    decreases |s|
  {
    if s == [] then Flush(cur)
    else if IsSpace(s[0]) then Flush(cur) + FieldsFrom(s[1..], [])
    else FieldsFrom(s[1..], cur + [s[0]])
  }

  /**
   * `strings.Fields`: the maximal runs of non-space characters of `s`, in
   * order. No field is empty and no field holds white space.
   */
  function Fields(s: string): (r: seq<string>)
    ensures forall i | 0 <= i < |r| :: r[i] != [] && NoSpace(r[i])
  {
    FieldsFrom(s, [])
  }

  function Concat(parts: seq<string>): string {
    if parts == [] then [] else parts[0] + Concat(parts[1..])
  }

  /** `s` with every white-space character taken out. */
  function RemoveSpaces(s: string): string {
    if s == [] then [] else (if IsSpace(s[0]) then [] else [s[0]]) + RemoveSpaces(s[1..])
  }

  lemma {:induction false} ConcatAppend(a: seq<string>, b: seq<string>)
    ensures Concat(a + b) == Concat(a) + Concat(b)
  {
    if a != [] {
      assert (a + b)[1..] == a[1..] + b;
      ConcatAppend(a[1..], b);
    } else {
      assert a + b == b;
    }
  }

  lemma {:induction false} FieldsFromConcat(s: string, cur: string)
    requires NoSpace(cur)
    ensures Concat(FieldsFrom(s, cur)) == cur + RemoveSpaces(s)
  {
    if s == [] {
      assert Concat(Flush(cur)) == cur + [] by { if cur != [] { assert Concat([cur]) == cur + Concat([]); } }
    } else if IsSpace(s[0]) {
      var rest := FieldsFrom(s[1..], []);
      ConcatAppend(Flush(cur), rest);
      FieldsFromConcat(s[1..], []);
      assert Concat(Flush(cur)) == cur by { if cur != [] { assert Concat([cur]) == cur + Concat([]); } }
      assert RemoveSpaces(s) == RemoveSpaces(s[1..]);
    } else {
      FieldsFromConcat(s[1..], cur + [s[0]]);
      assert RemoveSpaces(s) == [s[0]] + RemoveSpaces(s[1..]);
    }
  }

  /** Concatenating the fields gives back `s` without its white space. */
  lemma {:induction false} FieldsConcat(s: string)
    ensures Concat(Fields(s)) == RemoveSpaces(s)
  {
    FieldsFromConcat(s, []);
  }

  lemma {:induction false} FieldsFromEmpty(s: string, cur: string)
    requires NoSpace(cur)
    ensures FieldsFrom(s, cur) == [] <==> cur == [] && AllSpace(s)
  {
    if s != [] {
      if IsSpace(s[0]) {
        FieldsFromEmpty(s[1..], []);
        assert AllSpace(s) <==> AllSpace(s[1..]) by {
          if AllSpace(s[1..]) {
            forall i | 0 <= i < |s| ensures IsSpace(s[i]) { if i > 0 { assert s[i] == s[1..][i - 1]; } }
          }
        }
      } else {
        FieldsFromEmpty(s[1..], cur + [s[0]]);
      }
    }
  }

  /** There is no field exactly when `s` is all white space (or empty). */
  lemma {:induction false} FieldsEmpty(s: string)
    ensures Fields(s) == [] <==> AllSpace(s)
  {
    FieldsFromEmpty(s, []);
  }

  /** A run of non-space characters extends the field under construction. */
  lemma {:induction false} FieldsFromWord(w: string, t: string, cur: string)
    requires NoSpace(cur) && NoSpace(w)
    ensures FieldsFrom(w + t, cur) == FieldsFrom(t, cur + w)
  {
    if w == [] {
      assert w + t == t && cur + w == cur;
    } else {
      assert (w + t)[0] == w[0] && (w + t)[1..] == w[1..] + t;
      assert cur + w == (cur + [w[0]]) + w[1..];
      FieldsFromWord(w[1..], t, cur + [w[0]]);
    }
  }

  // --------------------------------------------------------------- Split/Join

  /** The pieces with a one-character separator between each two; used to state round trips. */
  function JoinWith(parts: seq<string>, sep: char): string {
    if |parts| == 0 then []
    else if |parts| == 1 then parts[0]
    else parts[0] + [sep] + JoinWith(parts[1..], sep)
  }

  lemma {:induction false} FieldsFromJoin(fs: seq<string>, cur: string)
    requires NoSpace(cur) && fs != []
    requires forall i | 0 <= i < |fs| :: fs[i] != [] && NoSpace(fs[i])
    ensures FieldsFrom(JoinWith(fs, ' '), cur) == [cur + fs[0]] + fs[1..]
  {
    if |fs| == 1 {
      FieldsFromWord(fs[0], [], cur);
      assert fs[0] + [] == fs[0];
    } else {
      var rest := JoinWith(fs[1..], ' ');
      assert JoinWith(fs, ' ') == fs[0] + ([' '] + rest);
      FieldsFromWord(fs[0], [' '] + rest, cur);
      assert ([' '] + rest)[1..] == rest;
      FieldsFromJoin(fs[1..], []);
      assert [] + fs[1] == fs[1];
      assert [fs[1]] + fs[2..] == fs[1..];
    }
  }

  /**
   * Round trip: joining non-empty, space-free words with single spaces and
   * splitting the result into fields gives the words back.
   */
  lemma {:induction false} FieldsOfJoin(fs: seq<string>)
    requires forall i | 0 <= i < |fs| :: fs[i] != [] && NoSpace(fs[i])
    ensures Fields(JoinWith(fs, ' ')) == fs
  {
    if fs != [] {
      FieldsFromJoin(fs, []);
      assert [] + fs[0] == fs[0];
    }
  }

  /**
   * `s` with its leading and trailing white space dropped and every other
   * run of white space replaced by one ' '. `pending` records a run seen
   * since the last non-space; `started` records that a non-space was seen.
   */
  function NormalizeFrom(s: string, pending: bool, started: bool): string {
    if s == [] then []
    else if IsSpace(s[0]) then NormalizeFrom(s[1..], started, started)
    else (if pending then [' '] else []) + [s[0]] + NormalizeFrom(s[1..], false, true)
  }

  function Normalize(s: string): string {
    NormalizeFrom(s, false, false)
  }

  lemma {:induction false} NormalizeAfterSpace(s: string)
    ensures NormalizeFrom(s, true, true) == if AllSpace(s) then [] else [' '] + Normalize(s)
  {
    if s != [] {
      if IsSpace(s[0]) {
        NormalizeAfterSpace(s[1..]);
        assert AllSpace(s) <==> AllSpace(s[1..]) by {
          if AllSpace(s[1..]) {
            forall i | 0 <= i < |s| ensures IsSpace(s[i]) { if i > 0 { assert s[i] == s[1..][i - 1]; } }
          }
        }
      }
    }
  }

  lemma {:induction false} JoinFieldsFrom(s: string, cur: string)
    requires NoSpace(cur)
    ensures JoinWith(FieldsFrom(s, cur), ' ') == cur + NormalizeFrom(s, false, cur != [])
    decreases |s|
  {
    if s == [] {
      assert cur + [] == cur;
    } else if IsSpace(s[0]) {
      JoinFieldsFrom(s[1..], []);
      assert [] + NormalizeFrom(s[1..], false, false) == Normalize(s[1..]);
      if cur != [] {
        JoinFieldsAtSpace(s, cur);
      } else {
        assert Flush(cur) + FieldsFrom(s[1..], []) == FieldsFrom(s[1..], []);
      }
    } else {
      JoinFieldsFrom(s[1..], cur + [s[0]]);
    }
  }

  /** The step of `JoinFieldsFrom` where a space closes a non-empty field. */
  lemma JoinFieldsAtSpace(s: string, cur: string)
    requires s != [] && IsSpace(s[0]) && cur != [] && NoSpace(cur)
    requires JoinWith(FieldsFrom(s[1..], []), ' ') == Normalize(s[1..])
    ensures JoinWith(FieldsFrom(s, cur), ' ') == cur + NormalizeFrom(s, false, true)
  {
    var rest := FieldsFrom(s[1..], []);
    assert FieldsFrom(s, cur) == [cur] + rest;
    FieldsFromEmpty(s[1..], []);
    NormalizeAfterSpace(s[1..]);
    if rest == [] {
      assert [cur] + rest == [cur];
      assert cur + [] == cur;
    } else {
      assert ([cur] + rest)[1..] == rest;
    }
  }

  /**
   * Joining the fields with single spaces gives `s` with its white-space runs
   * collapsed to one space and its leading and trailing white space dropped.
   */
  lemma {:induction false} JoinFields(s: string)
    ensures JoinWith(Fields(s), ' ') == Normalize(s)
  {
    JoinFieldsFrom(s, []);
  }

  /** Number of occurrences of `c` in `s`. */
  function Count(s: string, c: char): nat {
    if s == [] then 0 else (if s[0] == c then 1 else 0) + Count(s[1..], c)
  }

  /**
   * `strings.Split(s, string(sep))`: the pieces between the separators. There
   * is one piece more than there are separators (so the empty text gives one
   * empty piece), and no piece holds the separator.
   */
  function Split(s: string, sep: char): (r: seq<string>)
    ensures |r| == Count(s, sep) + 1
    ensures forall i | 0 <= i < |r| :: sep !in r[i]
  {
    if s == [] then [[]]
    else
      var rest := Split(s[1..], sep);
      if s[0] == sep then [[]] + rest
      else [[s[0]] + rest[0]] + rest[1..]
  }

  /** Joining the pieces with the separator gives back the text. */
  lemma {:induction false} SplitJoin(s: string, sep: char)
    ensures JoinWith(Split(s, sep), sep) == s
  {
    if s != [] {
      var rest := Split(s[1..], sep);
      SplitJoin(s[1..], sep);
      if s[0] == sep {
        assert ([[]] + rest)[1..] == rest;
      } else {
        var r := [[s[0]] + rest[0]] + rest[1..];
        assert r[1..] == rest[1..];
        if |rest| > 1 {
          assert JoinWith(rest, sep) == rest[0] + [sep] + JoinWith(rest[1..], sep);
        }
      }
    }
  }

  /** A separator-free word in front of `t` becomes part of the first piece. */
  lemma {:induction false} SplitWord(w: string, t: string, sep: char)
    requires sep !in w
    ensures Split(w + t, sep) == [w + Split(t, sep)[0]] + Split(t, sep)[1..]
  {
    if w == [] {
      assert w + t == t;
      assert [] + Split(t, sep)[0] == Split(t, sep)[0];
    } else {
      assert (w + t)[0] == w[0] && (w + t)[1..] == w[1..] + t;
      SplitWord(w[1..], t, sep);
      assert [w[0]] + (w[1..] + Split(t, sep)[0]) == w + Split(t, sep)[0];
    }
  }

  /** Round trip: splitting the join of separator-free pieces gives them back. */
  lemma {:induction false} SplitOfJoin(parts: seq<string>, sep: char)
    requires parts != []
    requires forall i | 0 <= i < |parts| :: sep !in parts[i]
    ensures Split(JoinWith(parts, sep), sep) == parts
  {
    if |parts| == 1 {
      SplitWord(parts[0], [], sep);
      assert parts[0] + [] == parts[0];
    } else {
      var rest := JoinWith(parts[1..], sep);
      assert JoinWith(parts, sep) == parts[0] + ([sep] + rest);
      SplitWord(parts[0], [sep] + rest, sep);
      assert ([sep] + rest)[1..] == rest;
      SplitOfJoin(parts[1..], sep);
      assert parts[0] + [] == parts[0];
      assert [parts[0]] + parts[1..] == parts;
    }
  }
}
