/** CONFIG.DAT as text: how a pair is written, how a line is read, and that reading undoes writing. */
module ConfigText {
  import opened Wrappers

  datatype Pair = Pair(key: string, value: string)

  predicate Blank(c: char) { c == ' ' || c == '\t' }

  predicate BlankOrEnd(c: char) { Blank(c) || c == '\n' || c == '\r' }

  function Tabs(n: int): string
  {
    if n <= 0 then "" else "\t" + Tabs(n - 1)
  }

  /** The line a pair is saved as. */
  function LineOf(p: Pair): string
  {
    p.key + Tabs(3 - |p.key| / 8) + "=" + " " + p.value + "\r\n"
  }

  function TrimStart(s: string): string
  {
    if s != "" && Blank(s[0]) then TrimStart(s[1..]) else s
  }

  function TrimBlanks(s: string): string
  {
    if s != "" && Blank(s[|s| - 1]) then TrimBlanks(s[..|s| - 1]) else s
  }

  function TrimEnd(s: string): string
  {
    if s != "" && BlankOrEnd(s[|s| - 1]) then TrimEnd(s[..|s| - 1]) else s
  }

  /** The first '=' from the i-th character on; |s| if there is none. */
  function FindEquals(s: string, i: nat): (r: nat)
    requires i <= |s|
    ensures i <= r <= |s| && (r < |s| ==> s[r] == '=')
    ensures forall k :: i <= k < r ==> s[k] != '='
    decreases |s| - i
  {
    if i == |s| || s[i] == '=' then i else FindEquals(s, i + 1)
  }

  predicate Skipped(line: string)
  {
    line != "" && (line[0] == '#' || line[0] == '\n' || (line[0] == '\r' && |line| > 1 && line[1] == '\n'))
  }

  /** The pair on a line; none for a comment, an empty line, or one without '='. */
  function ParseLine(line: string): Option<Pair>
  {
    var e := FindEquals(line, 0);
    if Skipped(line) || e == |line| then None
    else Some(Pair(TrimBlanks(line[..e]), TrimEnd(TrimStart(line[e + 1..]))))
  }

  /** Where the line beginning at i ends, after its newline; -1 if the text ends first. */
  function LineEnd(s: string, i: nat): (r: int)
    requires i <= |s|
    ensures r == -1 || i < r <= |s|
    ensures r != -1 ==> s[r - 1] == '\n' && forall k :: i <= k < r - 1 ==> s[k] != '\n' && s[k] != '\0'
    ensures r == -1 ==> forall k :: i <= k < |s| && s[k] == '\n' ==> '\0' in s[i..k]
    decreases |s| - i
  {
    if i == |s| || s[i] == '\0' then -1 else if s[i] == '\n' then i + 1 else LineEnd(s, i + 1)
  }

  /** The pairs of all complete lines. */
  function Parse(s: string): seq<Pair>
    decreases |s|
  {
    var e := LineEnd(s, 0);
    if e == -1 then []
    else
      var p := ParseLine(s[..e]);
      (if p.Some? then [p.value] else []) + Parse(s[e..])
  }

  /** All pairs with a value, one to a line. */
  function Print(ps: seq<Pair>): string
  {
    if ps == [] then "" else (if ps[0].value == "" then "" else LineOf(ps[0])) + Print(ps[1..])
  }

  function NonEmpty(ps: seq<Pair>): seq<Pair>
  {
    if ps == [] then [] else (if ps[0].value == "" then [] else [ps[0]]) + NonEmpty(ps[1..])
  }

  /** A key that can be told from the rest of its line, and a value that is not touched by trimming. */
  predicate WellFormed(p: Pair)
  {
    p.key != "" && p.key[0] != '#' && !Blank(p.key[|p.key| - 1]) &&
    (forall k :: 0 <= k < |p.key| ==> p.key[k] != '=' && p.key[k] != '\n' && p.key[k] != '\0') &&
    (p.value != "" ==> !Blank(p.value[0]) && !BlankOrEnd(p.value[|p.value| - 1])) &&
    (forall k :: 0 <= k < |p.value| ==> p.value[k] != '\n' && p.value[k] != '\0')
  }

  lemma {:induction false} TabsAreBlank(n: int)
    ensures forall k :: 0 <= k < |Tabs(n)| ==> Tabs(n)[k] == '\t'
    decreases n
  {
    if n > 0 { TabsAreBlank(n - 1); }
  }

  lemma {:induction false} TrimTabs(s: string, n: int)
    requires s != "" && !Blank(s[|s| - 1])
    ensures TrimBlanks(s + Tabs(n)) == s
    decreases n
  {
    if n <= 0 {
      assert s + "" == s;
    } else {
      TrimTabs(s, n - 1);
      TabsShift(n - 1);
      assert (s + Tabs(n))[..|s + Tabs(n)| - 1] == s + Tabs(n - 1);
    }
  }

  lemma {:induction false} TabsShift(n: int)
    requires n >= 0
    ensures "\t" + Tabs(n) == Tabs(n) + "\t"
  {
    if n > 0 {
      TabsShift(n - 1);
      assert "\t" + (Tabs(n - 1) + "\t") == "\t" + Tabs(n - 1) + "\t";
    } else {
      assert "\t" + "" == "" + "\t";
    }
  }

  lemma {:induction false} FindEqualsAt(s: string, i: nat, e: nat)
    requires i <= e < |s| && s[e] == '=' && forall k :: i <= k < e ==> s[k] != '='
    ensures FindEquals(s, i) == e
    decreases e - i
  {
    if i < e { FindEqualsAt(s, i + 1, e); }
  }

  /** Reading a saved line gives back the pair. */
  lemma ParseUndoesLineOf(p: Pair)
    requires WellFormed(p) && p.value != ""
    ensures ParseLine(LineOf(p)) == Some(p)
  {
    var tabs := Tabs(3 - |p.key| / 8);
    var head, tail := p.key + tabs, " " + p.value + "\r\n";
    TabsAreBlank(3 - |p.key| / 8);
    assert LineOf(p) == head + "=" + tail;
    forall k | 0 <= k < |head| ensures head[k] != '=' && head[k] != '\n' {
      if k >= |p.key| { assert head[k] == tabs[k - |p.key|]; }
    }
    TrimTabs(p.key, 3 - |p.key| / 8);
    TrimValue(p.value);
    ParseSplit(LineOf(p), head, tail);
  }

  /** A line split at its first equals sign. */
  lemma ParseSplit(line: string, head: string, tail: string)
    requires line == head + "=" + tail && head != "" && head[0] != '#'
    requires forall k :: 0 <= k < |head| ==> head[k] != '=' && head[k] != '\n'
    ensures ParseLine(line) == Some(Pair(TrimBlanks(head), TrimEnd(TrimStart(tail))))
  {
    var e := |head|;
    assert line[..e] == head && line[e + 1..] == tail && line[e] == '=';
    assert forall k :: 0 <= k < e ==> line[k] == head[k];
    FindEqualsAt(line, 0, e);
    assert |line| > 1 && line[1] != '\n';
  }

  lemma TrimValue(v: string)
    requires v != "" && !Blank(v[0]) && !BlankOrEnd(v[|v| - 1])
    ensures TrimEnd(TrimStart(" " + v + "\r\n")) == v
  {
    var s := " " + v + "\r\n";
    assert s[1..] == v + "\r\n" && (v + "\r\n")[0] == v[0];
    assert TrimStart(s) == v + "\r\n";
    assert (v + "\r\n")[..|v| + 1] == v + "\r" && (v + "\r")[..|v|] == v;
    assert TrimEnd(v + "\r\n") == TrimEnd(v + "\r") == TrimEnd(v) == v;
  }

  lemma {:induction false} LineEndAt(s: string, i: nat, e: nat)
    requires i <= e < |s| && s[e] == '\n' && forall k :: i <= k < e ==> s[k] != '\n' && s[k] != '\0'
    ensures LineEnd(s, i) == e + 1
    decreases e - i
  {
    if i < e { LineEndAt(s, i + 1, e); }
  }

  lemma LineOfIsLine(p: Pair, rest: string)
    requires WellFormed(p)
    ensures LineEnd(LineOf(p) + rest, 0) == |LineOf(p)|
  {
    var line := LineOf(p);
    var tabs := Tabs(3 - |p.key| / 8);
    var n := |line| - 1;
    TabsAreBlank(3 - |p.key| / 8);
    var head := p.key + tabs + "=" + " " + p.value + "\r";
    assert line == head + "\n";
    forall k | 0 <= k < n ensures head[k] != '\n' && head[k] != '\0' {
      if |p.key + tabs + "=" + " "| <= k < n - 1 {
        assert head[k] == p.value[k - |p.key + tabs + "=" + " "|];
      } else if k < |p.key| {
        assert head[k] == p.key[k];
      } else if k < |p.key + tabs| {
        assert head[k] == tabs[k - |p.key|];
      }
    }
    assert forall k :: 0 <= k < n ==> (line + rest)[k] == head[k];
    LineEndAt(line + rest, 0, n);
  }

  /** Parsing a printed list gives its pairs with a value, in order. */
  lemma {:induction false} ParseUndoesPrint(ps: seq<Pair>)
    requires forall k :: 0 <= k < |ps| ==> WellFormed(ps[k])
    ensures Parse(Print(ps)) == NonEmpty(ps)
    decreases |ps|
  {
    if ps != [] {
      ParseUndoesPrint(ps[1..]);
      assert WellFormed(ps[0]);
      if ps[0].value == "" {
        assert "" + Print(ps[1..]) == Print(ps[1..]);
        assert [] + NonEmpty(ps[1..]) == NonEmpty(ps[1..]);
      } else {
        var line, rest := LineOf(ps[0]), Print(ps[1..]);
        LineOfIsLine(ps[0], rest);
        ParseUndoesLineOf(ps[0]);
        assert (line + rest)[..|line|] == line && (line + rest)[|line|..] == rest;
      }
    }
  }

  // ---------------------------------------------------------------- lines in general

  /** A line beginning with '#' is a comment, whatever follows; so is an empty one; and without '=' there is no pair. */
  lemma NoPair(line: string)
    ensures line != "" && line[0] == '#' ==> ParseLine(line) == None
    ensures line == "\n" || line == "\r\n" ==> ParseLine(line) == None
    ensures '=' !in line ==> ParseLine(line) == None
    ensures ParseLine(line) == None ==>
              '=' !in line || (line != "" && (line[0] == '#' || line[0] == '\n' || (line[0] == '\r' && |line| > 1 && line[1] == '\n')))
  {
  }

  /** Blanks around the key and before the value, and blanks or line ends after it, do not matter. */
  lemma BlanksIgnored(key: string, a: string, b: string, value: string, c: string)
    requires WellFormed(Pair(key, value)) && value != "" && key[0] != '\n' && key[0] != '\r'
    requires (forall k :: 0 <= k < |a| ==> a[k] == ' ' || a[k] == '\t') && (forall k :: 0 <= k < |b| ==> b[k] == ' ' || b[k] == '\t')
    requires forall k :: 0 <= k < |c| ==> c[k] == ' ' || c[k] == '\t' || c[k] == '\n' || c[k] == '\r'
    ensures ParseLine(key + a + "=" + b + value + c) == Some(Pair(key, value))
  {
    var line, e := key + a + "=" + b + value + c, |key + a|;
    assert line[..e] == key + a && line[e + 1..] == b + (value + c);
    forall k | 0 <= k < e ensures line[k] != '=' {
      if k >= |key| { assert line[k] == a[k - |key|]; }
    }
    FindEqualsAt(line, 0, e);
    DropAfter(key, a);
    DropBefore(b, value + c);
    DropEnd(value, c);
  }

  lemma {:induction false} DropAfter(s: string, a: string)
    requires s != "" && !Blank(s[|s| - 1]) && forall k :: 0 <= k < |a| ==> Blank(a[k])
    ensures TrimBlanks(s + a) == s
  {
    if a == "" {
      assert s + a == s;
    } else {
      DropAfter(s, a[..|a| - 1]);
      assert (s + a)[..|s + a| - 1] == s + a[..|a| - 1];
    }
  }

  lemma {:induction false} DropEnd(s: string, a: string)
    requires s != "" && !BlankOrEnd(s[|s| - 1]) && forall k :: 0 <= k < |a| ==> BlankOrEnd(a[k])
    ensures TrimEnd(s + a) == s
  {
    if a == "" {
      assert s + a == s;
    } else {
      DropEnd(s, a[..|a| - 1]);
      assert (s + a)[..|s + a| - 1] == s + a[..|a| - 1];
    }
  }

  lemma {:induction false} DropBefore(b: string, s: string)
    requires s != "" && !Blank(s[0]) && forall k :: 0 <= k < |b| ==> Blank(b[k])
    ensures TrimStart(b + s) == s
  {
    if b == "" {
      assert b + s == s;
    } else {
      DropBefore(b[1..], s);
      assert (b + s)[1..] == b[1..] + s;
    }
  }

  lemma {:induction false} TabsCount(n: int)
    ensures |Tabs(n)| == if n > 0 then n else 0
    decreases n
  {
    if n > 0 { TabsCount(n - 1); }
  }

  /** A saved line: the key, tabs up to the third tab stop, an equals sign, a space, the value, and a line end. */
  lemma LineShape(p: Pair) returns (tabs: string)
    ensures LineOf(p) == p.key + tabs + "= " + p.value + "\r\n"
    ensures |tabs| == (if |p.key| < 24 then 3 - |p.key| / 8 else 0) && forall k :: 0 <= k < |tabs| ==> tabs[k] == '\t'
  {
    tabs := Tabs(3 - |p.key| / 8);
    TabsCount(3 - |p.key| / 8);
    TabsAreBlank(3 - |p.key| / 8);
    assert "=" + " " == "= ";
    assert p.key + tabs + "=" + " " + p.value + "\r\n" == p.key + tabs + ("=" + " ") + p.value + "\r\n";
  }
}
