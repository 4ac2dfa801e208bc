/** POSIX path keys: lexical normalization, parents, component-boundary prefixes, lexical safety. */
module Paths {
  import opened Wrappers

  type Name = string

  const ROOT: string := "/"

  // ---- The reference: a path is its list of names -----------------------------

  predicate NoSep(s: string) { forall q :: 0 <= q < |s| ==> s[q] != '/' }

  predicate IsName(c: string) { c != [] && NoSep(c) }

  ghost predicate AllNames(cs: seq<Name>) { forall i :: 0 <= i < |cs| ==> IsName(cs[i]) }

  predicate IsAbsolute(s: string) { s != [] && s[0] == '/' }

  /** Length of the leading run that holds no separator. */
  function NameEnd(s: string): (n: nat)
    ensures n <= |s| && (n < |s| ==> s[n] == '/') && (n == 0 <==> s == [] || s[0] == '/')
    ensures forall q :: 0 <= q < n ==> s[q] != '/'
  {
    if s == [] || s[0] == '/' then 0 else 1 + NameEnd(s[1..])
  }

  /** The non-empty names of a path, in order. */
  function Components(s: string): (cs: seq<Name>)
    ensures AllNames(cs)
    decreases |s|
  {
    if s == [] then []
    else if s[0] == '/' then Components(s[1..])
    else [s[..NameEnd(s)]] + Components(s[NameEnd(s)..])
  }

  function Join(cs: seq<Name>): (s: string) {
    if cs == [] then []
    else if |cs| == 1 then cs[0]
    else cs[0] + ROOT + Join(cs[1..])
  }

  /** The canonical key of a component list below the root. */
  function KeyOf(cs: seq<Name>): (k: string) { ROOT + Join(cs) }

  /** What normalization means: the path's names, joined by single separators. */
  function Normalize(s: string): (k: string) {
    (if IsAbsolute(s) then ROOT else []) + Join(Components(s))
  }

  /** An absolute path in canonical form. */
  ghost predicate IsKey(k: string) { k == KeyOf(Components(k)) }

  // ---- Components of joined and concatenated paths -----------------------------

  lemma SplitInside(a: string, b: string, n: nat)
    requires n <= |a|
    ensures (a + b)[..n] == a[..n] && (a + b)[n..] == a[n..] + b
  {}

  lemma {:induction false} ComponentsConcat(a: string, b: string)
    ensures Components(a + ROOT + b) == Components(a) + Components(b)
    decreases |a|
  {
    var s := a + ROOT + b;
    if a == [] {
      assert s[1..] == b;
    } else if a[0] == '/' {
      SplitInside(a, ROOT + b, 1);
      assert s == a + (ROOT + b) && a[1..] + (ROOT + b) == a[1..] + ROOT + b;
      ComponentsConcat(a[1..], b);
    } else {
      var n := NameEnd(a);
      SplitInside(a, ROOT + b, n);
      assert s == a + (ROOT + b) && a[n..] + (ROOT + b) == a[n..] + ROOT + b;
      NameEndUnique(s, n);
      ComponentsConcat(a[n..], b);
    }
  }

  lemma {:induction false} NameEndUnique(s: string, n: nat)
    requires n <= |s| && (forall q :: 0 <= q < n ==> s[q] != '/') && (n < |s| ==> s[n] == '/')
    ensures NameEnd(s) == n
  {
    var m := NameEnd(s);
    assert forall i :: 0 <= i < n ==> s[i] == s[..n][i];
    assert forall i :: 0 <= i < m ==> s[i] == s[..m][i];
  }

  lemma NameIsItsComponent(c: string)
    requires IsName(c)
    ensures Components(c) == [c]
  {
    assert c[..|c|] == c;
    NameEndUnique(c, |c|);
    assert c[0] != '/' && c[|c|..] == [];
  }

  lemma {:induction false} ComponentsJoin(cs: seq<Name>)
    requires AllNames(cs)
    ensures Components(Join(cs)) == cs && Components(KeyOf(cs)) == cs
    decreases |cs|
  {
    assert KeyOf(cs)[1..] == Join(cs);
    if |cs| == 1 {
      NameIsItsComponent(cs[0]);
    } else if |cs| > 1 {
      ComponentsJoin(cs[1..]);
      NameIsItsComponent(cs[0]);
      ComponentsConcat(cs[0], Join(cs[1..]));
    }
  }

  lemma {:induction false} JoinConcat(a: seq<Name>, b: seq<Name>)
    requires a != []
    ensures Join(a + b) == Join(a) + (if b == [] then [] else ROOT + Join(b))
    decreases |a|
  {
    if b == [] {
      assert a + b == a;
    } else if |a| == 1 {
      assert (a + b)[1..] == b;
    } else {
      JoinConcat(a[1..], b);
      assert (a + b)[1..] == a[1..] + b;
    }
  }

  /** A rendered relative path starts and ends with a name character. */
  lemma {:induction false} JoinEnds(cs: seq<Name>)
    requires AllNames(cs) && cs != []
    ensures Join(cs) != [] && Join(cs)[0] != '/' && Join(cs)[|Join(cs)| - 1] != '/'
    decreases |cs|
  {
    assert IsName(cs[0]);
    if |cs| > 1 {
      JoinEnds(cs[1..]);
    }
  }

  // ---- The normalization loop ---------------------------------------------------

  /** What the loop appends for the rest `s`, given whether a separator was just written. */
  ghost function Collapse(s: string, prevSep: bool): (out: string) {
    if s == [] then []
    else if s[0] == '/' then (if prevSep then [] else ROOT) + Collapse(s[1..], true)
    else [s[0]] + Collapse(s[1..], false)
  }

  lemma SliceOff(s: string, n: nat)
    requires n < |s|
    ensures s[..n + 1] == [s[0]] + s[1..][..n] && s[n + 1..] == s[1..][n..]
  {}

  lemma {:induction false} CollapseName(s: string, prevSep: bool)
    requires s != [] && s[0] != '/'
    ensures Collapse(s, prevSep) == s[..NameEnd(s)] + Collapse(s[NameEnd(s)..], false)
    decreases |s|
  {
    var t := s[1..];
    var n := NameEnd(t);
    assert NameEnd(s) == n + 1;
    SliceOff(s, n);
    if n == 0 {
      assert t[..0] == [] && t[0..] == t;
    } else {
      CollapseName(t, false);
      var name, rest := t[..n], Collapse(t[n..], false);
      assert [s[0]] + (name + rest) == ([s[0]] + name) + rest;
    }
  }

  /** The separator the loop leaves after the names of `s`, if `s` ends in one. */
  ghost function Trailing(s: string): (t: string) {
    if Components(s) != [] && s[|s| - 1] == '/' then ROOT else []
  }

  /** Past a leading name, whatever collapses after it. */
  lemma CollapseRestName(s: string, n: nat)
    requires s != [] && s[0] != '/' && n == NameEnd(s)
    requires n < |s| ==> Collapse(s[n..][1..], true) == Join(Components(s[n..][1..])) + Trailing(s[n..][1..])
    ensures Collapse(s, true) == Join(Components(s)) + Trailing(s)
  {
    var name, r := s[..n], s[n..];
    CollapseName(s, true);
    assert Components(s) == [name] + Components(r);
    if r == [] {
      assert s == name && [name] + [] == [name];
    } else {
      CollapseTail(name, r);
      assert s[|s| - 1] == r[|r| - 1];
    }
  }

  /** After a separator, the loop writes the joined names and at most one trailing separator. */
  lemma {:induction false} CollapseRest(s: string)
    ensures Collapse(s, true) == Join(Components(s)) + Trailing(s)
    decreases |s|
  {
    if s != [] && s[0] == '/' {
      CollapseRest(s[1..]);
    } else if s != [] {
      var n := NameEnd(s);
      if n < |s| { CollapseRest(s[n..][1..]); }
      CollapseRestName(s, n);
    }
  }

  lemma CollapseTail(name: string, r: string)
    requires r != [] && r[0] == '/'
    requires Collapse(r[1..], true) == Join(Components(r[1..])) + Trailing(r[1..])
    ensures name + Collapse(r, false) ==
            Join([name] + Components(r)) + (if r[|r| - 1] == '/' then ROOT else [])
  {
    var t, cs := r[1..], Components(r);
    if cs == [] {
      AllSeparators(r);
      assert Collapse(t, true) == [];
      assert [name] + cs == [name];
    } else {
      assert t != [] && t[|t| - 1] == r[|r| - 1];
      assert ([name] + cs)[1..] == cs;
      Regroup(name, ROOT, Join(cs), Trailing(t));
    }
  }

  lemma Regroup(a: string, b: string, c: string, d: string)
    ensures a + (b + (c + d)) == a + b + c + d
  {}

  lemma {:induction false} AllSeparators(s: string)
    requires Components(s) == [] && s != []
    ensures s[|s| - 1] == '/'
    decreases |s|
  {
    if |s| > 1 {
      AllSeparators(s[1..]);
    }
  }

  ghost function TrimTrailing(out: string): (r: string) {
    if |out| > 1 && out[|out| - 1] == '/' then out[..|out| - 1] else out
  }

  lemma TrimOne(body: string, tail: string)
    requires body != [] && (|body| > 1 ==> body[|body| - 1] != '/')
    requires tail == [] || (tail == ROOT && (|body| > 1 || body[0] != '/'))
    ensures TrimTrailing(body + tail) == body
  {
    if tail == [] { assert body + tail == body; } else { assert (body + tail)[..|body|] == body; }
  }

  lemma CollapseThenTrim(s: string)
    ensures TrimTrailing(Collapse(s, false)) == Normalize(s)
  {
    var cs := Components(s);
    if cs != [] { JoinEnds(cs); }
    if IsAbsolute(s) {
      var t := s[1..];
      CollapseRest(t);
      assert ROOT + (Join(cs) + Trailing(t)) == KeyOf(cs) + Trailing(t);
      TrimOne(KeyOf(cs), Trailing(t));
    } else if s != [] {
      CollapseRest(s);
      TrimOne(Join(cs), Trailing(s));
      assert [] + Join(cs) == Join(cs);
    }
  }

  /** One turn of the loop moves one character's output from what is left to what is done. */
  lemma EmitOne(out: string, input: string, i: nat, prevSep: bool)
    requires i < |input|
    ensures var one := if input[i] != '/' then [input[i]] else if prevSep then [] else ROOT;
            out + Collapse(input[i..], prevSep) == (out + one) + Collapse(input[i + 1..], input[i] == '/')
  {
    var one := if input[i] != '/' then [input[i]] else if prevSep then [] else ROOT;
    var rest := Collapse(input[i + 1..], input[i] == '/');
    assert input[i..][1..] == input[i + 1..];
    assert Collapse(input[i..], prevSep) == one + rest;
    assert out + (one + rest) == (out + one) + rest;
  }

  /** The one-pass rewrite produces the canonical key of every input. */
  method NormalizeKeyStr(input: string) returns (out: string)
    ensures out == Normalize(input)
  {
    out := [];
    var prevSep := false;
    assert input[0..] == input && [] + Collapse(input, false) == Collapse(input, false);
    for i := 0 to |input|
      invariant out + Collapse(input[i..], prevSep) == Collapse(input, false)
    {
      EmitOne(out, input, i, prevSep);
      if input[i] == '/' {
        if prevSep { assert out + [] == out; }
        if !prevSep {
          prevSep := true;
          out := out + ROOT;
        }
      } else {
        prevSep := false;
        out := out + [input[i]];
      }
    }
    assert input[|input|..] == [] && out + [] == out;
    CollapseThenTrim(input);
    if |out| > 1 && out[|out| - 1] == '/' {
      out := out[..|out| - 1];
    }
  }

  /** Normalizing keeps a path's names and its absoluteness. */
  lemma NormalizeKeepsComponents(s: string)
    ensures Components(Normalize(s)) == Components(s)
    ensures IsAbsolute(Normalize(s)) == IsAbsolute(s)
  {
    var cs := Components(s);
    ComponentsJoin(cs);
    if cs != [] {
      JoinEnds(cs);
    }
    assert [] + Join(cs) == Join(cs);
  }

  /** The key is a canonical form: equal keys exactly for equal names (and absoluteness). */
  lemma KeysEqualIffComponentsEqual(s: string, t: string)
    ensures Normalize(s) == Normalize(t) <==>
            IsAbsolute(s) == IsAbsolute(t) && Components(s) == Components(t)
  {
    NormalizeKeepsComponents(s);
    NormalizeKeepsComponents(t);
  }

  lemma NormalizeIdempotent(s: string)
    ensures Normalize(Normalize(s)) == Normalize(s)
    ensures IsAbsolute(s) ==> IsKey(Normalize(s))
  {
    NormalizeKeepsComponents(s);
    KeysEqualIffComponentsEqual(Normalize(s), s);
  }

  /** Absolute keys are exactly the rendered component lists. */
  lemma KeyOfIsKey(cs: seq<Name>)
    requires AllNames(cs)
    ensures IsKey(KeyOf(cs)) && Components(KeyOf(cs)) == cs
  {
    ComponentsJoin(cs);
  }

  // ---- Parents --------------------------------------------------------------------

  /** Index of the last separator, or -1. */
  function LastSep(s: string): (i: int)
    ensures -1 <= i < |s| && (i >= 0 ==> s[i] == '/')
    ensures forall q :: i < q < |s| ==> s[q] != '/'
  {
    if s == [] then -1
    else if s[|s| - 1] == '/' then |s| - 1
    else LastSep(s[..|s| - 1])
  }

  /** Everything before the last separator; the root keeps its own. */
  function ParentKey(key: string): (r: Option<string>) {
    var i := LastSep(key);
    if i < 0 then None else if i < 1 then Some(key[..i + 1]) else Some(key[..i])
  }

  lemma LastSepUnique(s: string, i: nat)
    requires i < |s| && s[i] == '/' && forall q :: i < q < |s| ==> s[q] != '/'
    ensures LastSep(s) == i
  {
    var j := LastSep(s);
    assert !(j < i) && !(i < j);
  }

  lemma AfterSep(a: string, c: string, q: nat)
    requires |a| < q < |a + ROOT + c| && NoSep(c)
    ensures (a + ROOT + c)[q] != '/'
  {
    assert (a + ROOT + c)[q] == c[q - |a| - 1];
  }

  lemma LastSepOf(a: string, c: string)
    requires NoSep(c)
    ensures LastSep(a + ROOT + c) == |a|
  {
    forall q | |a| < q < |a + ROOT + c| ensures (a + ROOT + c)[q] != '/' { AfterSep(a, c, q); }
    LastSepUnique(a + ROOT + c, |a|);
  }

  lemma KeyOfSnoc(init: seq<Name>, last: Name)
    ensures KeyOf(init + [last]) == (if init == [] then [] else KeyOf(init)) + ROOT + last
  {
    if init == [] {
      assert init + [last] == [last];
    } else {
      JoinConcat(init, [last]);
    }
  }

  /** On keys the string parent drops the last name; the root is its own parent. */
  lemma ParentKeyOf(cs: seq<Name>)
    requires AllNames(cs)
    ensures ParentKey(KeyOf(cs)) == Some(KeyOf(if cs == [] then [] else cs[..|cs| - 1]))
  {
    if cs != [] {
      var init, last := cs[..|cs| - 1], cs[|cs| - 1];
      KeyOfSnoc(init, last);
      assert cs == init + [last];
      var before := if init == [] then [] else KeyOf(init);
      var k := before + ROOT + last;
      LastSepOf(before, last);
      if init == [] { assert k[..1] == KeyOf(init); } else { JoinEnds(init); assert k[..|before|] == before; }
    } else {
      LastSepUnique(KeyOf(cs), 0);
      assert KeyOf(cs)[..1] == KeyOf(cs);
    }
  }

  function StripSeps(s: string): (r: string)
    ensures r <= s
  {
    if |s| > 1 && s[|s| - 1] == '/' then StripSeps(s[..|s| - 1]) else s
  }

  function StripName(s: string): (r: string)
    ensures r <= s && (r != [] ==> r[|r| - 1] == '/')
    ensures forall q :: |r| <= q < |s| ==> s[q] != '/'
  {
    if s != [] && s[|s| - 1] != '/' then StripName(s[..|s| - 1]) else s
  }

  /** `Path::parent` on a path without dot components: drop the last name and its separators. */
  function PathParent(s: string): (r: Option<string>) {
    if Components(s) == [] then None else Some(StripSeps(StripName(StripSeps(s))))
  }

  lemma {:induction false} StripSepsKeepsComponents(s: string)
    ensures Components(StripSeps(s)) == Components(s) && IsAbsolute(StripSeps(s)) == IsAbsolute(s)
    ensures |StripSeps(s)| > 1 ==> StripSeps(s)[|StripSeps(s)| - 1] != '/'
    decreases |s|
  {
    if |s| > 1 && s[|s| - 1] == '/' {
      var t := s[..|s| - 1];
      assert s == t + ROOT + [];
      ComponentsConcat(t, []);
      StripSepsKeepsComponents(t);
    }
  }

  /** The last name split off, with whatever separator comes before it. */
  lemma LastNameSplits(d: string, c: string)
    requires IsName(c) && d != [] && d[|d| - 1] == '/'
    ensures Components(d + c) == Components(d) + [c]
  {
    var e := d[..|d| - 1];
    assert d == e + ROOT && d + c == e + ROOT + c && d == e + ROOT + [];
    ComponentsConcat(e, c);
    ComponentsConcat(e, []);
    NameIsItsComponent(c);
  }

  /** Stripping the final name of a path that does not end in a separator drops one component. */
  lemma StripNameDropsLast(t: string)
    requires t != [] && t[|t| - 1] != '/'
    ensures Components(t) != [] && Components(StripName(t)) == Components(t)[..|Components(t)| - 1]
    ensures IsAbsolute(StripName(t)) == IsAbsolute(t)
  {
    var d := StripName(t);
    var c := t[|d|..];
    assert t == d + c;
    assert d != t && IsName(c);
    if d == [] {
      assert t == c;
      NameIsItsComponent(c);
    } else {
      LastNameSplits(d, c);
    }
  }

  lemma PathParentDropsLast(s: string)
    requires Components(s) != []
    ensures Components(PathParent(s).value) == Components(s)[..|Components(s)| - 1]
    ensures IsAbsolute(PathParent(s).value) == IsAbsolute(s)
  {
    var t := StripSeps(s);
    StripSepsKeepsComponents(s);
    assert Components(ROOT) == Components(ROOT[1..]);
    assert t != ROOT && t != [];
    StripNameDropsLast(t);
    StripSepsKeepsComponents(StripName(t));
  }

  /** Normalization commutes with taking the parent, on every absolute path but the root. */
  lemma ParentCommutes(s: string)
    requires IsAbsolute(s)
    ensures PathParent(s).None? <==> Normalize(s) == ROOT
    ensures PathParent(s).Some? ==>
              IsAbsolute(PathParent(s).value) && ParentKey(Normalize(s)) == Some(Normalize(PathParent(s).value))
  {
    var cs := Components(s);
    ParentKeyOf(cs);
    if cs != [] {
      PathParentDropsLast(s);
      JoinEnds(cs);
    }
  }

  // ---- Prefixes ----------------------------------------------------------------------

  /** Whether `key` is `prefix` or extends it at a separator (strip the prefix, look at the rest). */
  predicate KeyHasPrefix(key: string, prefix: string) {
    prefix <= key && (|key| == |prefix| || key[|prefix|] == '/')
  }

  lemma ComponentsGivePrefix(key: seq<Name>, prefix: seq<Name>)
    requires AllNames(key) && AllNames(prefix) && prefix != [] && prefix <= key
    ensures KeyHasPrefix(KeyOf(key), KeyOf(prefix))
  {
    var rest := key[|prefix|..];
    assert key == prefix + rest;
    JoinConcat(prefix, rest);
    assert KeyOf(key) == KeyOf(prefix) + (if rest == [] then [] else ROOT + Join(rest));
  }

  lemma SplitAtSep(k: string, p: string)
    requires p < k && k[|p|] == '/'
    ensures k == p + ROOT + k[|p| + 1..]
  {}

  lemma PrefixGivesComponents(key: seq<Name>, prefix: seq<Name>)
    requires AllNames(key) && AllNames(prefix) && KeyHasPrefix(KeyOf(key), KeyOf(prefix))
    ensures prefix <= key
  {
    var k, p := KeyOf(key), KeyOf(prefix);
    ComponentsJoin(key);
    ComponentsJoin(prefix);
    if |k| > |p| {
      SplitAtSep(k, p);
      ComponentsConcat(p, k[|p| + 1..]);
    } else {
      assert k == p;
    }
  }

  /** The string test is the component test, for every prefix except the bare root. */
  lemma PrefixIffComponents(key: seq<Name>, prefix: seq<Name>)
    requires AllNames(key) && AllNames(prefix)
    ensures prefix != [] ==> (KeyHasPrefix(KeyOf(key), KeyOf(prefix)) <==> prefix <= key)
    ensures prefix == [] ==> (KeyHasPrefix(KeyOf(key), KeyOf(prefix)) <==> key == [])
  {
    if prefix == [] {
      if key != [] { JoinEnds(key); }
    } else {
      if prefix <= key { ComponentsGivePrefix(key, prefix); }
      if KeyHasPrefix(KeyOf(key), KeyOf(prefix)) { PrefixGivesComponents(key, prefix); }
    }
  }

  // ---- Lexical safety ------------------------------------------------------------------

  /** `str::split('/')`: every piece between separators, empty ones included. */
  function Split(s: string): (ps: seq<string>)
    ensures ps != []
    decreases |s|
  {
    var n := NameEnd(s);
    if n == |s| then [s] else [s[..n]] + Split(s[n + 1..])
  }

  predicate IsLexicallySafe(s: string) {
    '\0' !in s && forall i :: 0 <= i < |Split(s)| ==> Split(s)[i] != "." && Split(s)[i] != ".."
  }

  ghost predicate DotFree(cs: seq<Name>) { "." !in cs && ".." !in cs }

  lemma {:induction false} SplitComponents(s: string)
    ensures forall c: string :: c != [] ==> (c in Split(s) <==> c in Components(s))
    decreases |s|
  {
    var n := NameEnd(s);
    if n < |s| {
      SplitComponents(s[n + 1..]);
      assert s[n..][1..] == s[n + 1..];
      if n == 0 { assert s[..n] == [] && s[1..] == s[n + 1..]; }
    } else if s != [] {
      assert s[..n] == s && s[n..] == [];
    }
  }

  /** A path is safe exactly when it has no NUL and none of its names navigates. */
  lemma SafeIffDotFree(s: string)
    ensures IsLexicallySafe(s) <==> '\0' !in s && DotFree(Components(s))
  {
    SplitComponents(s);
    assert "." in Split(s) <==> "." in Components(s);
    assert ".." in Split(s) <==> ".." in Components(s);
  }
}
