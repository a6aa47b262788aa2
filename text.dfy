// Python string handling used by `read_setup_config`: `str.strip()` with no
// argument, and the list comprehension that strips the lines of the setup
// file and drops the blank ones.
module PyText {

  /** The characters Python's `str.isspace()` accepts, which are also the ones
      `str.strip()` removes when called without an argument. */
  predicate IsSpace(c: char) {
    ('\t' <= c <= '\r') || ('\U{1C}' <= c <= ' ') || c == '\U{85}' || c == '\U{A0}'
    || c == '\U{1680}' || ('\U{2000}' <= c <= '\U{200A}') || c == '\U{2028}' || c == '\U{2029}'
    || c == '\U{202F}' || c == '\U{205F}' || c == '\U{3000}'
  }

  predicate AllSpace(s: string) {
    forall k :: 0 <= k < |s| ==> IsSpace(s[k])
  }

  /** A string with nothing for `strip()` to remove at either end. */
  predicate Stripped(s: string) {
    s == "" || (!IsSpace(s[0]) && !IsSpace(s[|s| - 1]))
  }

  /** Number of leading whitespace characters. */
  function Lead(s: string): (n: nat)
    ensures n <= |s|
    ensures forall k :: 0 <= k < n ==> IsSpace(s[k])
    ensures n < |s| ==> !IsSpace(s[n])
  {
    if s == [] || !IsSpace(s[0]) then 0 else 1 + Lead(s[1..])
  }

  /** Number of trailing whitespace characters. */
  function Trail(s: string): (n: nat)
    ensures n <= |s|
    ensures forall k :: |s| - n <= k < |s| ==> IsSpace(s[k])
    ensures n < |s| ==> !IsSpace(s[|s| - 1 - n])
  {
    if s == [] || !IsSpace(s[|s| - 1]) then 0 else 1 + Trail(s[..|s| - 1])
  }

  /** Python's `s.strip()`: `s` without its leading and trailing whitespace. */
  function Strip(s: string): (r: string)
    ensures Stripped(r)
    ensures r == "" <==> AllSpace(s)
    ensures |r| <= |s|
  {
    if Lead(s) == |s| then "" else s[Lead(s)..|s| - Trail(s)]
  }

  lemma {:induction false} LeadOfSpacePrefix(p: string, t: string)
    requires AllSpace(p)
    ensures Lead(p + t) == |p| + Lead(t)
    decreases |p|
  {
    if p != [] {
      assert (p + t)[0] == p[0];
      assert (p + t)[1..] == p[1..] + t;
      LeadOfSpacePrefix(p[1..], t);
    } else {
      assert p + t == t;
    }
  }

  lemma {:induction false} TrailOfSpaceSuffix(t: string, q: string)
    requires AllSpace(q)
    ensures Trail(t + q) == Trail(t) + |q|
    decreases |q|
  {
    if q != [] {
      var n := |t + q|;
      assert (t + q)[n - 1] == q[|q| - 1];
      assert (t + q)[..n - 1] == t + q[..|q| - 1];
      TrailOfSpaceSuffix(t, q[..|q| - 1]);
    } else {
      assert t + q == t;
    }
  }

  lemma AllSpaceConcat(a: string, b: string)
    requires AllSpace(a) && AllSpace(b)
    ensures AllSpace(a + b)
  {
    forall k | 0 <= k < |a + b| ensures IsSpace((a + b)[k]) {
      if k < |a| { assert (a + b)[k] == a[k]; } else { assert (a + b)[k] == b[k - |a|]; }
    }
  }

  /** Before a middle that starts with a non-space, the leading whitespace run
      is exactly the padding. */
  lemma LeadOfPadded(p: string, u: string)
    requires AllSpace(p) && u != [] && !IsSpace(u[0])
    ensures Lead(p + u) == |p|
  {
    LeadOfSpacePrefix(p, u);
    assert Lead(u) == 0;
  }

  /** After a middle that ends with a non-space, the trailing whitespace run is
      exactly the padding. */
  lemma TrailOfPadded(u: string, q: string)
    requires AllSpace(q) && u != [] && !IsSpace(u[|u| - 1])
    ensures Trail(u + q) == |q|
  {
    TrailOfSpaceSuffix(u, q);
    assert Trail(u) == 0;
  }

  /** `strip()` is characterised by what it removes: whatever `s` is split into
      whitespace, a stripped middle and whitespace, `strip()` returns the middle. */
  lemma StripRemovesOnlyOuterSpace(p: string, t: string, q: string)
    requires AllSpace(p) && AllSpace(q) && Stripped(t)
    ensures Strip(p + t + q) == t
  {
    if t == "" {
      assert p + t + q == p + q;
      AllSpaceConcat(p, q);
    } else {
      var s := p + t + q;
      assert s == p + (t + q) && (t + q)[0] == t[0];
      LeadOfPadded(p, t + q);
      assert (p + t)[|p + t| - 1] == t[|t| - 1];
      TrailOfPadded(p + t, q);
      assert s[|p|..|s| - |q|] == t;
    }
  }

  /** A line with nothing to strip is left as it is. */
  lemma StripOfStripped(t: string)
    requires Stripped(t)
    ensures Strip(t) == t
  {
    StripRemovesOnlyOuterSpace("", t, "");
    assert "" + t + "" == t;
  }

  /** Stripping twice is stripping once. */
  lemma StripIdempotent(s: string)
    ensures Strip(Strip(s)) == Strip(s)
  {
    StripOfStripped(Strip(s));
  }

  /** The comprehension `[x.strip() for x in lines if x.strip()]`. */
  function ConfigLines(raw: seq<string>): (lines: seq<string>)
    ensures |lines| <= |raw|
  {
    if raw == [] then []
    else (if Strip(raw[0]) != "" then [Strip(raw[0])] else []) + ConfigLines(raw[1..])
  }

  /** Every kept line is non-empty and has nothing left to strip. */
  lemma {:induction false} ConfigLinesAreClean(raw: seq<string>)
    ensures var lines := ConfigLines(raw);
            forall k :: 0 <= k < |lines| ==> lines[k] != "" && Stripped(lines[k])
    decreases |raw|
  {
    if raw != [] {
      ConfigLinesAreClean(raw[1..]);
      var head := if Strip(raw[0]) != "" then [Strip(raw[0])] else [];
      var lines := ConfigLines(raw);
      assert forall k :: |head| <= k < |lines| ==> lines[k] == ConfigLines(raw[1..])[k - |head|];
    }
  }

  /** The filter keeps order: the lines of a concatenation are the lines of its parts. */
  lemma {:induction false} ConfigLinesAppend(a: seq<string>, b: seq<string>)
    ensures ConfigLines(a + b) == ConfigLines(a) + ConfigLines(b)
    decreases |a|
  {
    if a == [] {
      assert a + b == b;
    } else {
      assert (a + b)[0] == a[0];
      assert (a + b)[1..] == a[1..] + b;
      ConfigLinesAppend(a[1..], b);
    }
  }

  /** A whitespace-only line contributes nothing; any other line contributes
      exactly its stripped form. */
  lemma ConfigLinesOfOne(x: string)
    ensures ConfigLines([x]) == if AllSpace(x) then [] else [Strip(x)]
  {
    assert [x][1..] == [];
  }

  /** Lines that are already stripped and non-blank pass through unchanged. */
  lemma {:induction false} ConfigLinesOfClean(raw: seq<string>)
    requires forall k :: 0 <= k < |raw| ==> raw[k] != "" && Stripped(raw[k])
    ensures ConfigLines(raw) == raw
    decreases |raw|
  {
    if raw != [] {
      StripOfStripped(raw[0]);
      ConfigLinesOfClean(raw[1..]);
      assert ConfigLines(raw) == [raw[0]] + raw[1..];
    }
  }
}
