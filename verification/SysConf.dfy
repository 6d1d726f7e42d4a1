/** The configuration list: set and look up, load and save. */
module SysConf {
  import opened Wrappers
  import opened ConfigText

  /** Replace the value of a key, or add the pair at the end. */
  function Set(ps: seq<Pair>, p: Pair): seq<Pair>
  {
    if ps == [] then [p] else if ps[0].key == p.key then [p] + ps[1..] else [ps[0]] + Set(ps[1..], p)
  }

  function SetAll(ps: seq<Pair>, qs: seq<Pair>): seq<Pair>
    decreases |qs|
  {
    if qs == [] then ps else Set(SetAll(ps, qs[..|qs| - 1]), qs[|qs| - 1])
  }

  /** What a look-up from the front finds. */
  function MapOf(ps: seq<Pair>): map<string, string>
  {
    if ps == [] then map[] else MapOf(ps[1..])[ps[0].key := ps[0].value]
  }

  /** No key occurs twice. */
  predicate Distinct(ps: seq<Pair>)
  {
    forall i, j :: 0 <= i < j < |ps| ==> ps[i].key != ps[j].key
  }

  lemma {:induction false} MapKeys(ps: seq<Pair>, key: string)
    ensures key in MapOf(ps) <==> exists k :: 0 <= k < |ps| && ps[k].key == key
  {
    if ps != [] {
      MapKeys(ps[1..], key);
      assert forall k :: 0 <= k < |ps| - 1 ==> ps[1..][k] == ps[k + 1];
      if key in MapOf(ps[1..]) {
        var k :| 0 <= k < |ps| - 1 && ps[1..][k].key == key;
        assert ps[k + 1].key == key;
      } else if exists k :: 0 <= k < |ps| && ps[k].key == key {
        var k :| 0 <= k < |ps| && ps[k].key == key;
        assert k > 0 ==> ps[1..][k - 1].key == key;
      }
    }
  }

  lemma {:induction false} SetMap(ps: seq<Pair>, p: Pair)
    ensures MapOf(Set(ps, p)) == MapOf(ps)[p.key := p.value]
  {
    if ps != [] && ps[0].key != p.key {
      SetMap(ps[1..], p);
      assert Set(ps, p)[1..] == Set(ps[1..], p);
    } else if ps != [] {
      assert Set(ps, p)[1..] == ps[1..];
    }
  }

  lemma {:induction false} SetDistinct(ps: seq<Pair>, p: Pair)
    requires Distinct(ps)
    ensures Distinct(Set(ps, p))
    ensures forall k :: 0 <= k < |Set(ps, p)| ==> Set(ps, p)[k].key == p.key || exists j :: 0 <= j < |ps| && ps[j].key == Set(ps, p)[k].key
  {
    if ps != [] && ps[0].key != p.key {
      var rest := Set(ps[1..], p);
      assert Distinct(ps[1..]);
      SetDistinct(ps[1..], p);
      forall k | 0 <= k < |rest| ensures rest[k].key != ps[0].key && (rest[k].key == p.key || exists j :: 0 <= j < |ps| && ps[j].key == rest[k].key) {
        if rest[k].key != p.key {
          var j :| 0 <= j < |ps| - 1 && ps[1..][j].key == rest[k].key;
          assert ps[j + 1].key == rest[k].key;
        }
      }
    }
  }

  lemma {:induction false} SetAllMap(ps: seq<Pair>, qs: seq<Pair>)
    requires Distinct(ps) && Distinct(qs)
    ensures MapOf(SetAll(ps, qs)) == MapOf(ps) + MapOf(qs) && Distinct(SetAll(ps, qs))
    decreases |qs|
  {
    if qs != [] {
      var n := |qs| - 1;
      SetAllMap(ps, qs[..n]);
      SetMap(SetAll(ps, qs[..n]), qs[n]);
      SetDistinct(SetAll(ps, qs[..n]), qs[n]);
      LastSet(qs, n);
      PlusUpdate(MapOf(ps), MapOf(qs[..n]), qs[n].key, qs[n].value);
    }
  }

  lemma LastSet(qs: seq<Pair>, n: nat)
    requires n + 1 == |qs| && Distinct(qs)
    ensures MapOf(qs) == MapOf(qs[..n])[qs[n].key := qs[n].value]
  {
    MapAppend(qs[..n], qs[n]);
    assert qs[..n] + [qs[n]] == qs;
  }

  lemma PlusUpdate(m: map<string, string>, n: map<string, string>, key: string, value: string)
    ensures (m + n)[key := value] == m + n[key := value]
  {
  }

  lemma {:induction false} MapAppend(qs: seq<Pair>, q: Pair)
    requires forall k :: 0 <= k < |qs| ==> qs[k].key != q.key
    ensures MapOf(qs + [q]) == MapOf(qs)[q.key := q.value]
  {
    if qs != [] {
      assert (qs + [q])[1..] == qs[1..] + [q];
      MapAppend(qs[1..], q);
    } else {
      assert [] + [q] == [q] && [q][1..] == [];
    }
  }

  lemma {:induction false} NonEmptyDistinct(ps: seq<Pair>)
    requires Distinct(ps)
    ensures Distinct(NonEmpty(ps))
    ensures forall k :: 0 <= k < |NonEmpty(ps)| ==> NonEmpty(ps)[k] in ps
  {
    if ps != [] {
      assert Distinct(ps[1..]);
      NonEmptyDistinct(ps[1..]);
      assert forall p :: p in ps[1..] ==> p.key != ps[0].key;
    }
  }

  lemma {:induction false} NonEmptyMap(ps: seq<Pair>, key: string)
    requires Distinct(ps)
    ensures key in MapOf(NonEmpty(ps)) <==> key in MapOf(ps) && MapOf(ps)[key] != ""
    ensures key in MapOf(NonEmpty(ps)) ==> MapOf(NonEmpty(ps))[key] == MapOf(ps)[key]
  {
    if ps != [] {
      assert Distinct(ps[1..]);
      NonEmptyMap(ps[1..], key);
      if ps[0].value == "" {
        assert NonEmpty(ps) == NonEmpty(ps[1..]);
        if key == ps[0].key {
          MapKeys(ps[1..], key);
          assert forall k :: 0 <= k < |ps| - 1 ==> ps[1..][k] == ps[k + 1];
        }
      } else {
        assert NonEmpty(ps)[1..] == NonEmpty(ps[1..]);
      }
    }
  }

  /** The configuration a saved list gives when it is loaded: the defaults, overlaid by the pairs that have a value. */
  function Reloaded(defaults: seq<Pair>, ps: seq<Pair>): seq<Pair>
  {
    SetAll(SetAll([], defaults), Parse(Print(ps)))
  }

  lemma LoadUndoesSave(defaults: seq<Pair>, ps: seq<Pair>)
    requires Distinct(defaults) && Distinct(ps) && forall k :: 0 <= k < |ps| ==> WellFormed(ps[k])
    ensures Distinct(Reloaded(defaults, ps))
    ensures MapOf(Reloaded(defaults, ps)) == MapOf(defaults) + MapOf(NonEmpty(ps))
  {
    ParseUndoesPrint(ps);
    NonEmptyDistinct(ps);
    OverlayMap(defaults, NonEmpty(ps));
  }

  lemma OverlayMap(ps: seq<Pair>, qs: seq<Pair>)
    requires Distinct(ps) && Distinct(qs)
    ensures Distinct(SetAll(SetAll([], ps), qs))
    ensures MapOf(SetAll(SetAll([], ps), qs)) == MapOf(ps) + MapOf(qs)
  {
    SetAllMap([], ps);
    SetAllMap(SetAll([], ps), qs);
  }

  /**
   The configuration survives saving and loading exactly if every default is present, with a value
   unless the default has none, and a key without a value is one of those: an emptied setting comes back as its default.
   */
  lemma SurvivesReload(defaults: seq<Pair>, ps: seq<Pair>)
    requires Distinct(defaults) && Distinct(ps) && forall k :: 0 <= k < |ps| ==> WellFormed(ps[k])
    ensures MapOf(Reloaded(defaults, ps)) == MapOf(ps) <==>
            (forall key :: key in MapOf(defaults) ==> key in MapOf(ps) && (MapOf(ps)[key] != "" || MapOf(defaults)[key] == "")) &&
            (forall key :: key in MapOf(ps) && MapOf(ps)[key] == "" ==> key in MapOf(defaults))
  {
    LoadUndoesSave(defaults, ps);
    forall key: string
      ensures IsValueOf(MapOf(NonEmpty(ps)), MapOf(ps), key)
    {
      NonEmptyMap(ps, key);
    }
    OverlayIs(MapOf(ps), MapOf(defaults), MapOf(NonEmpty(ps)));
  }

  /** n has the key with m's value if that is not empty, and otherwise not at all. */
  predicate IsValueOf(n: map<string, string>, m: map<string, string>, key: string)
  {
    (key in n <==> key in m && m[key] != "") && (key in n ==> n[key] == m[key])
  }

  /** When overlaying the values of m on d gives m itself. */
  lemma OverlayIs(m: map<string, string>, d: map<string, string>, n: map<string, string>)
    requires forall key: string :: IsValueOf(n, m, key)
    ensures d + n == m <==> (forall key :: key in d ==> key in m && (m[key] != "" || d[key] == "")) &&
                            (forall key :: key in m && m[key] == "" ==> key in d)
  {
    var r := d + n;
    if r == m {
      forall key | key in d ensures key in m && (m[key] != "" || d[key] == "") {
        assert IsValueOf(n, m, key) && key in r;
      }
      forall key | key in m && m[key] == "" ensures key in d {
        assert IsValueOf(n, m, key) && key in r;
      }
    } else if (forall key :: key in d ==> key in m && (m[key] != "" || d[key] == "")) && (forall key :: key in m && m[key] == "" ==> key in d) {
      forall key: string ensures (key in r <==> key in m) && (key in r ==> r[key] == m[key]) {
        assert IsValueOf(n, m, key);
      }
    }
  }

  /** An emptied path comes back as the default. */
  lemma EmptiedPath()
    ensures MapOf(Reloaded([Pair("scr_path", "host:/")], [Pair("scr_path", "")])) == map["scr_path" := "host:/"]
  {
    var d, p := Pair("scr_path", "host:/"), Pair("scr_path", "");
    assert Print([p]) == "" + Print([]) == "";
    assert SetAll([], [d]) == [d] by { assert [d][..0] == []; }
    assert MapOf([d]) == map["scr_path" := "host:/"];
  }

  // ---------------------------------------------------------------- the code

  lemma SliceNext(s: string, i: nat, j: nat)
    requires i <= j < |s|
    ensures s[i..j] + [s[j]] == s[i..j + 1]
  {
  }

  /** Copy characters up to and including a newline; a last line without one is not returned. */
  method ReadBufLine(buf: string, pos: nat) returns (ok: bool, line: string, next: nat)
    requires pos <= |buf|
    ensures next <= |buf| && ok == (LineEnd(buf, pos) != -1)
    ensures ok ==> next == LineEnd(buf, pos) && line == buf[pos..next]
  {
    line, next := "", pos;
    while next < |buf| && buf[next] != '\0'
      invariant pos <= next <= |buf| && line == buf[pos..next] && LineEnd(buf, pos) == LineEnd(buf, next)
    {
      SliceNext(buf, pos, next);
      line := line + [buf[next]];
      if buf[next] == '\n' {
        return true, line, next + 1;
      }
      next := next + 1;
    }
    ok := false;
  }

  lemma {:induction false} TrimStartTo(s: string, i: nat)
    requires i <= |s| && (forall k :: 0 <= k < i ==> Blank(s[k])) && (i < |s| ==> !Blank(s[i]))
    ensures TrimStart(s) == s[i..]
    decreases i
  {
    if i > 0 {
      TrimStartTo(s[1..], i - 1);
    }
  }

  lemma {:induction false} TrimEndTo(s: string, n: nat)
    requires n <= |s| && (forall k :: n <= k < |s| ==> BlankOrEnd(s[k])) && (n > 0 ==> !BlankOrEnd(s[n - 1]))
    ensures TrimEnd(s) == s[..n]
    decreases |s|
  {
    if n < |s| {
      TrimEndTo(s[..|s| - 1], n);
      assert s[..|s| - 1][..n] == s[..n];
    }
  }

  lemma {:induction false} TrimBlanksTo(s: string, n: nat)
    requires n <= |s| && (forall k :: n <= k < |s| ==> Blank(s[k])) && (n > 0 ==> !Blank(s[n - 1]))
    ensures TrimBlanks(s) == s[..n]
    decreases |s|
  {
    if n < |s| {
      TrimBlanksTo(s[..|s| - 1], n);
      assert s[..|s| - 1][..n] == s[..n];
    }
  }

  /** The value after the '=' at e: leading blanks skipped, trailing blanks and the line end cut off. */
  method ReadValue(line: string, e: nat) returns (value: string)
    requires e < |line| && line[e] == '='
    ensures value == TrimEnd(TrimStart(line[e + 1..]))
  {
    var p := e + 1;
    while p < |line| && Blank(line[p])
      invariant e < p <= |line| && forall k :: e < k < p ==> Blank(line[k])
    {
      p := p + 1;
    }
    var end := |line|;
    while BlankOrEnd(line[end - 1])
      invariant e < end <= |line| && forall k :: end <= k < |line| ==> BlankOrEnd(line[k])
      decreases end
    {
      end := end - 1;
    }
    TrimmedIs(line, e + 1, p, end);
    value := if p < end then line[p..end] else "";
  }

  lemma TrimmedIs(line: string, a: nat, p: nat, end: nat)
    requires a <= p <= |line| && (forall k :: a <= k < p ==> Blank(line[k])) && (p < |line| ==> !Blank(line[p]))
    requires a <= end <= |line| && (forall k :: end <= k < |line| ==> BlankOrEnd(line[k])) && (p < end ==> !BlankOrEnd(line[end - 1]))
    ensures TrimEnd(TrimStart(line[a..])) == if p < end then line[p..end] else ""
  {
    var s := line[a..];
    TrimStartTo(s, p - a);
    assert s[p - a..] == line[p..];
    TrimEndTo(line[p..], if p < end then end - p else 0);
  }

  lemma {:induction false} AllBlanks(s: string)
    ensures TrimBlanks(s) == "" <==> forall k :: 0 <= k < |s| ==> Blank(s[k])
  {
    if s != "" && Blank(s[|s| - 1]) {
      AllBlanks(s[..|s| - 1]);
    }
  }

  /** The key that is read is empty exactly if nothing but blanks comes before the '='; the C loop then leaves its buffer. */
  lemma EmptyKey(line: string)
    requires ParseLine(line).Some?
    ensures ParseLine(line).value.key == "" <==> forall k :: 0 <= k < FindEquals(line, 0) ==> Blank(line[k])
  {
    AllBlanks(line[..FindEquals(line, 0)]);
  }

  /** Which no line of a saved configuration makes it do. */
  lemma SavedKeyKept(p: Pair)
    requires WellFormed(p) && p.value != ""
    ensures ParseLine(LineOf(p)).Some? && ParseLine(LineOf(p)).value.key != ""
  {
    ParseUndoesLineOf(p);
  }

  method ReadPair(line: string) returns (r: Option<Pair>)
    ensures r == ParseLine(line)
  {
    if Skipped(line) {
      return None;
    }
    var e := 0;
    while e < |line| && line[e] != '='
      invariant e <= |line| && FindEquals(line, 0) == FindEquals(line, e)
    {
      e := e + 1;
    }
    if e == |line| {
      return None;
    }
    var n := e;
    while n > 0 && Blank(line[n - 1])
      invariant n <= e && forall k :: n <= k < e ==> Blank(line[k])
    {
      n := n - 1;
    }
    TrimBlanksTo(line[..e], n);
    assert line[..e][..n] == line[..n];
    var value := ReadValue(line, e);
    r := Some(Pair(line[..n], value));
  }

  class Config {
    var pairs: seq<Pair>

    constructor ()
      ensures pairs == []
    {
      pairs := [];
    }

    /** SC_SetValueForKey_Str. */
    method SetValue(key: string, value: string) returns (modified: bool)
      modifies this
      ensures pairs == Set(old(pairs), Pair(key, value)) && modified == (key in MapOf(old(pairs)))
    {
      MapKeys(pairs, key);
      var i := 0;
      while i < |pairs|
        invariant i <= |pairs| && pairs == old(pairs) && forall k :: 0 <= k < i ==> pairs[k].key != key
      {
        if pairs[i].key == key {
          SetAt(pairs, i, Pair(key, value));
          pairs := pairs[i := Pair(key, value)];
          return true;
        }
        i := i + 1;
      }
      SetNew(pairs, Pair(key, value));
      pairs := pairs + [Pair(key, value)];
      modified := false;
    }

    /** SC_GetValueForKey_Str. */
    method GetValue(key: string) returns (r: Option<string>)
      ensures r == if key in MapOf(pairs) then Some(MapOf(pairs)[key]) else None
    {
      var i := 0;
      while i < |pairs|
        invariant i <= |pairs| && (key in MapOf(pairs) <==> key in MapOf(pairs[i..]))
        invariant key in MapOf(pairs) ==> MapOf(pairs)[key] == MapOf(pairs[i..])[key]
      {
        assert pairs[i..][1..] == pairs[i + 1..];
        if pairs[i].key == key {
          return Some(pairs[i].value);
        }
        i := i + 1;
      }
      r := None;
    }

    /** SC_LoadConfig: the defaults, then every pair of the file; 0 if there is no file, or nothing in it. */
    method LoadConfig(defaults: seq<Pair>, safeMode: bool, file: Option<string>) returns (ret: int)
      modifies this
      ensures ret == if safeMode || (file.Some? && file.value != "") then 1 else 0
      ensures pairs == if safeMode || file.None? then SetAll(old(pairs), defaults) else SetAll(SetAll(old(pairs), defaults), Parse(file.value))
    {
      for i := 0 to |defaults|
        invariant pairs == SetAll(old(pairs), defaults[..i])
      {
        assert defaults[..i + 1][..i] == defaults[..i];
        var modified := SetValue(defaults[i].key, defaults[i].value);
      }
      assert defaults[..|defaults|] == defaults;
      if safeMode {
        return 1;
      }
      if file.None? || file.value == "" {
        return 0;
      }
      LoadLines(file.value);
      ret := 1;
    }

    /** Every complete line of the text. */
    method LoadLines(text: string)
      modifies this
      ensures pairs == SetAll(old(pairs), Parse(text))
    {
      ghost var goal := SetAll(pairs, Parse(text));
      var ok, line, next := ReadBufLine(text, 0);
      ghost var pos: nat := 0;
      assert text[0..] == text;
      while ok
        invariant pos <= |text| && ok == (LineEnd(text, pos) != -1) && (ok ==> next == LineEnd(text, pos) && line == text[pos..next])
        invariant SetAll(pairs, Parse(text[pos..])) == goal
        decreases |text| - pos, ok
      {
        ParseStep(text, pos);
        LoadLine(line, Parse(text[next..]));
        pos := next;
        ok, line, next := ReadBufLine(text, next);
      }
      ParseStep(text, pos);
    }

    /** One line. */
    method LoadLine(line: string, ghost rest: seq<Pair>)
      modifies this
      ensures SetAll(pairs, rest) == SetAll(old(pairs), (if ParseLine(line).Some? then [ParseLine(line).value] else []) + rest)
    {
      var p := ReadPair(line);
      if p.Some? {
        SetAllFirst(pairs, p.value, rest);
        var modified := SetValue(p.value.key, p.value.value);
      } else {
        assert [] + rest == rest;
      }
    }

    /** SC_SaveConfig; the text written, if the file could be opened. */
    method SaveConfig(canOpen: bool) returns (ret: int, text: string)
      ensures ret == (if canOpen then 1 else 0) && text == if canOpen then Print(pairs) else ""
    {
      text := "";
      if !canOpen {
        return 0, text;
      }
      var i := 0;
      while i < |pairs|
        invariant i <= |pairs| && text + Print(pairs[i..]) == Print(pairs)
      {
        PrintStep(text, pairs, i);
        if pairs[i].value != "" {
          text := WriteLine(text, pairs[i]);
        }
        i := i + 1;
      }
      assert text + "" == text;
      ret := 1;
    }
  }

  lemma PrintStep(text: string, ps: seq<Pair>, i: nat)
    requires i < |ps|
    ensures text + Print(ps[i..]) == (if ps[i].value == "" then text else text + LineOf(ps[i])) + Print(ps[i + 1..])
  {
    assert ps[i..][1..] == ps[i + 1..];
    var rest := Print(ps[i + 1..]);
    if ps[i].value == "" {
      assert "" + rest == rest;
    } else {
      var line := LineOf(ps[i]);
      assert text + line + rest == text + (line + rest);
    }
  }

  /** Write a pair: key, tabs up to the third tab stop, value. */
  method WriteLine(text: string, p: Pair) returns (r: string)
    ensures r == text + LineOf(p)
  {
    r := text + p.key;
    var numTabs := 3 - |p.key| / 8;
    r := WriteTabs(r, numTabs);
    r := r + "=";
    r := r + " ";
    r := r + p.value;
    r := r + "\r\n";
    assert r == text + LineOf(p);
  }

  method WriteTabs(text: string, n: int) returns (r: string)
    ensures r == text + Tabs(n)
  {
    r := text;
    var t := 0;
    while t < n
      invariant t == 0 || 0 <= t <= n
      invariant r + Tabs(n - t) == text + Tabs(n)
    {
      assert r + ("\t" + Tabs(n - t - 1)) == r + "\t" + Tabs(n - t - 1);
      r := r + "\t";
      t := t + 1;
    }
    assert r + "" == r;
  }

  /** Parsing from a position takes the line there, if it is complete. */
  lemma ParseStep(text: string, pos: nat)
    requires pos <= |text|
    ensures var e := LineEnd(text, pos);
            Parse(text[pos..]) == if e == -1 then [] else (if ParseLine(text[pos..e]).Some? then [ParseLine(text[pos..e]).value] else []) + Parse(text[e..])
  {
    var e := LineEnd(text, pos);
    LineEndShift(text, pos, 0);
    if e != -1 {
      Slices(text, pos, e);
      ParseFirst(text[pos..], text[pos..e], text[e..]);
    }
  }

  lemma Slices<T>(s: seq<T>, i: nat, j: nat)
    requires i <= j <= |s|
    ensures s[i..][..j - i] == s[i..j] && s[i..][j - i..] == s[j..]
  {
  }

  lemma ParseFirst(t: string, line: string, rest: string)
    requires LineEnd(t, 0) != -1 && t[..LineEnd(t, 0)] == line && t[LineEnd(t, 0)..] == rest
    ensures Parse(t) == (if ParseLine(line).Some? then [ParseLine(line).value] else []) + Parse(rest)
  {
  }

  lemma {:induction false} SetAllFirst(ps: seq<Pair>, p: Pair, qs: seq<Pair>)
    ensures SetAll(ps, [p] + qs) == SetAll(Set(ps, p), qs)
    decreases |qs|
  {
    if qs == [] {
      assert [p] + qs == [p] && [p][..0] == [];
      assert SetAll(ps, [p]) == Set(SetAll(ps, []), p);
    } else {
      var n := |qs| - 1;
      assert ([p] + qs)[..|qs|] == [p] + qs[..n];
      SetAllFirst(ps, p, qs[..n]);
    }
  }

  /** The first pair with the key is replaced where it stands. */
  lemma {:induction false} SetAt(ps: seq<Pair>, i: nat, p: Pair)
    requires i < |ps| && ps[i].key == p.key && forall k :: 0 <= k < i ==> ps[k].key != p.key
    ensures Set(ps, p) == ps[i := p]
    decreases i
  {
    if i > 0 {
      SetAt(ps[1..], i - 1, p);
      assert [ps[0]] + ps[1..][i - 1 := p] == ps[i := p];
    }
  }

  /** A new key comes last. */
  lemma {:induction false} SetNew(ps: seq<Pair>, p: Pair)
    requires forall k :: 0 <= k < |ps| ==> ps[k].key != p.key
    ensures Set(ps, p) == ps + [p]
  {
    if ps != [] {
      SetNew(ps[1..], p);
      assert [ps[0]] + (ps[1..] + [p]) == ps + [p];
    }
  }

  lemma {:induction false} LineEndShift(s: string, pos: nat, i: nat)
    requires pos + i <= |s|
    ensures LineEnd(s, pos + i) == if LineEnd(s[pos..], i) == -1 then -1 else LineEnd(s[pos..], i) + pos
    decreases |s| - i
  {
    if pos + i < |s| {
      LineEndShift(s, pos, i + 1);
    }
  }

  /** Save a list, start again with an empty one, and load. */
  method SaveAndLoad(config: Config, defaults: seq<Pair>) returns (again: Config)
    requires Distinct(defaults) && Distinct(config.pairs) && forall k :: 0 <= k < |config.pairs| ==> WellFormed(config.pairs[k])
    ensures fresh(again) && Distinct(again.pairs) && MapOf(again.pairs) == MapOf(defaults) + MapOf(NonEmpty(config.pairs))
  {
    var ret, text := config.SaveConfig(true);
    again := new Config();
    var loaded := again.LoadConfig(defaults, false, Some(text));
    LoadUndoesSave(defaults, config.pairs);
  }
}
