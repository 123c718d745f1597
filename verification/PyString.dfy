/** The Python string operations the WKT reader and writer use. */
module PyString {
  predicate IsSpace(c: char) {
    c == ' ' || '\t' <= c <= '\r' || '\U{1c}' <= c <= '\U{1f}' || c == '\U{85}' || c == '\U{a0}'
  }

  // ---- join and split ----

  function Join(sep: string, parts: seq<string>): string {
    if parts == [] then "" else if |parts| == 1 then parts[0] else parts[0] + sep + Join(sep, parts[1..])
  }

  /** `s.split(sep)`: cut at each leftmost occurrence. */
  function SplitOn(s: string, sep: string): (r: seq<string>)
    requires sep != ""
    ensures r != []
  {
    if |s| < |sep| then [s]
    else if s[..|sep|] == sep then [""] + SplitOn(s[|sep|..], sep)
    else
      var r := SplitOn(s[1..], sep);
      [[s[0]] + r[0]] + r[1..]
  }

  /** The first piece ends at the first occurrence; it cannot start inside a piece that does not
      hold the separator's first character. */
  lemma {:induction false} SplitHead(p: string, sep: string, rest: string)
    requires sep != "" && sep[0] !in p
    ensures SplitOn(p + sep + rest, sep) == [p] + SplitOn(rest, sep)
  {
    var s := p + sep + rest;
    if p == "" {
      assert s == sep + rest && s[..|sep|] == sep && s[|sep|..] == rest;
    } else {
      assert s[0] == p[0] && s[..|sep|][0] == p[0];
      assert s[1..] == p[1..] + sep + rest;
      SplitHead(p[1..], sep, rest);
      assert [p[0]] + p[1..] == p;
    }
  }

  lemma {:induction false} SplitWhole(p: string, tail: string, sep: string)
    requires sep != "" && sep[0] !in p && |tail| < |sep|
    ensures SplitOn(p + tail, sep) == [p + tail]
  {
    var s := p + tail;
    if p != "" && |s| >= |sep| {
      assert s[0] == p[0] && s[..|sep|][0] == p[0];
      assert s[1..] == p[1..] + tail;
      SplitWhole(p[1..], tail, sep);
      assert [s[0]] + (p[1..] + tail) == s;
    }
  }

  // ---- strip ----

  function LStrip(s: string, drop: char -> bool): string {
    if s != "" && drop(s[0]) then LStrip(s[1..], drop) else s
  }

  function RStrip(s: string, drop: char -> bool): string {
    if s != "" && drop(s[|s| - 1]) then RStrip(s[..|s| - 1], drop) else s
  }

  function Strip(s: string): string { RStrip(LStrip(s, IsSpace), IsSpace) }

  lemma {:induction false} LStripPrefix(lead: string, s: string, drop: char -> bool)
    requires forall i :: 0 <= i < |lead| ==> drop(lead[i])
    requires s == "" || !drop(s[0])
    ensures LStrip(lead + s, drop) == s
  {
    if lead == "" {
      assert lead + s == s;
    } else {
      assert (lead + s)[1..] == lead[1..] + s;
      LStripPrefix(lead[1..], s, drop);
    }
  }

  lemma {:induction false} RStripSuffix(s: string, tail: string, drop: char -> bool)
    requires forall i :: 0 <= i < |tail| ==> drop(tail[i])
    requires s == "" || !drop(s[|s| - 1])
    ensures RStrip(s + tail, drop) == s
  {
    if tail == "" {
      assert s + tail == s;
    } else {
      assert (s + tail)[..|s + tail| - 1] == s + tail[..|tail| - 1];
      RStripSuffix(s, tail[..|tail| - 1], drop);
    }
  }

  // ---- split on white space ----

  function TokenLength(s: string): (n: nat)
    ensures n <= |s|
    ensures s != "" && !IsSpace(s[0]) ==> n > 0
  {
    if s == "" || IsSpace(s[0]) then 0 else 1 + TokenLength(s[1..])
  }

  /** `s.split()`. */
  function Words(s: string): seq<string>
    decreases |s|
  {
    if s == "" then [] else if IsSpace(s[0]) then Words(s[1..]) else
      [s[..TokenLength(s)]] + Words(s[TokenLength(s)..])
  }

  ghost predicate NoSpace(s: string) { forall i :: 0 <= i < |s| ==> !IsSpace(s[i]) }

  lemma {:induction false} TokenThenSpace(a: string, rest: string)
    requires NoSpace(a) && (rest == "" || IsSpace(rest[0]))
    ensures TokenLength(a + rest) == |a|
  {
    if a == "" {
      assert a + rest == rest;
    } else {
      assert (a + rest)[1..] == a[1..] + rest;
      TokenThenSpace(a[1..], rest);
    }
  }

  lemma WordThenSpace(a: string, rest: string)
    requires a != "" && NoSpace(a) && (rest == "" || IsSpace(rest[0]))
    ensures Words(a + rest) == [a] + Words(rest)
  {
    TokenThenSpace(a, rest);
    assert (a + rest)[..|a|] == a && (a + rest)[|a|..] == rest;
  }

  lemma SkipSpace(rest: string)
    ensures Words(" " + rest) == Words(rest)
  {
    assert (" " + rest)[1..] == rest;
  }

  // ---- index ----

  function IndexFrom(s: string, c: char): (i: nat)
    ensures i <= |s| && (i < |s| ==> s[i] == c) && c !in s[..i]
  {
    if s == "" || s[0] == c then 0 else
      var i := IndexFrom(s[1..], c);
      assert s[..i + 1] == [s[0]] + s[1..][..i];
      1 + i
  }

  /** One past the last occurrence of `c`, or 0 if there is none. */
  function RIndexEnd(s: string, c: char): (i: nat)
    ensures i <= |s| && (i > 0 ==> s[i - 1] == c) && forall j :: i <= j < |s| ==> s[j] != c
  {
    if s == "" then 0 else if s[|s| - 1] == c then |s| else RIndexEnd(s[..|s| - 1], c)
  }
}
