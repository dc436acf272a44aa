/** `ARG_RE.findall(args)`: the `key=value` pairs of an opening line, where
    the value is bare or wrapped in a matching pair of double or single
    quotes. */
module Args {
  import opened PyStr
  import opened Grammar

  /** One match: the field, the quote (empty, `"` or `'`) and the value. */
  datatype Arg = Arg(key: string, quote: string, value: string)

  /** What any match satisfies. */
  predicate WellFormed(d: Dialect, a: Arg) {
    && a.key != [] && All(a.key, IsFieldChar)
    && (a.quote == "" || a.quote == "\"" || a.quote == "'")
    && a.value != [] && (forall i :: 0 <= i < |a.value| ==> IsValueChar(d, a.value[i]))
  }

  /** The text of one pair. */
  function Render(a: Arg): string {
    a.key + "=" + a.quote + a.value + a.quote
  }

  /** The length of the longest run of value characters at the front of `s`. */
  function ValueLen(d: Dialect, s: string): (n: nat)
    ensures n <= |s| && (forall i :: 0 <= i < n ==> IsValueChar(d, s[i]))
    ensures n < |s| ==> !IsValueChar(d, s[n])
  {
    if s == [] || !IsValueChar(d, s[0]) then 0 else 1 + ValueLen(d, s[1..])
  }

  lemma {:induction false} ValueLenExact(d: Dialect, s: string, n: nat)
    requires n <= |s| && (forall i :: 0 <= i < n ==> IsValueChar(d, s[i]))
    requires n < |s| ==> !IsValueChar(d, s[n])
    ensures ValueLen(d, s) == n
  {
    if n > 0 {
      ValueLenExact(d, s[1..], n - 1);
    }
  }

  /** The pattern tried at the front of `s`: the match and its length. The
      field is the longest run of `[\w-]` and must be followed by '='; then
      a double quote, a single quote or no quote is tried in that order, the
      value is the longest run of value characters, and the same quote must
      follow it. */
  function MatchArg(d: Dialect, s: string): (r: Option<(Arg, nat)>)
    ensures r.Some? ==> 0 < r.value.1 <= |s| && WellFormed(d, r.value.0)
                        && s[..r.value.1] == Render(r.value.0)
  {
    var f := LeadLen(s, IsFieldChar);
    if f == 0 || f == |s| || s[f] != '=' then None
    else
      var rest := s[f + 1..];
      assert s == s[..f] + "=" + rest;
      MatchValue(d, s[..f], rest)
  }

  /** The value part, after `key=`. */
  function MatchValue(d: Dialect, key: string, rest: string): (r: Option<(Arg, nat)>)
    requires key != [] && All(key, IsFieldChar)
    ensures r.Some? ==> r.value.1 <= |key| + 1 + |rest| && WellFormed(d, r.value.0)
                        && (key + "=" + rest)[..r.value.1] == Render(r.value.0)
  {
    if rest != [] && (rest[0] == '"' || rest[0] == '\'') then
      var v := ValueLen(d, rest[1..]);
      if v > 0 && v + 1 < |rest| && rest[v + 1] == rest[0] then
        QuotedPrefix(key, rest, v);
        Some((Arg(key, [rest[0]], rest[1..v + 1]), |key| + v + 3))
      else None
    else
      var v := ValueLen(d, rest);
      if v > 0 then
        BarePrefix(key, rest, v);
        Some((Arg(key, "", rest[..v]), |key| + 1 + v))
      else None
  }

  lemma QuotedPrefix(key: string, rest: string, v: nat)
    requires v + 1 < |rest| && rest[v + 1] == rest[0]
    ensures (key + "=" + rest)[..|key| + v + 3] == Render(Arg(key, [rest[0]], rest[1..v + 1]))
  {
    assert rest[..v + 2] == [rest[0]] + rest[1..v + 1] + [rest[0]];
    assert (key + "=" + rest)[..|key| + v + 3] == key + "=" + rest[..v + 2];
  }

  lemma BarePrefix(key: string, rest: string, v: nat)
    requires v <= |rest|
    ensures (key + "=" + rest)[..|key| + 1 + v] == Render(Arg(key, "", rest[..v]))
  {
    assert (key + "=" + rest)[..|key| + 1 + v] == key + "=" + rest[..v];
  }

  /** `findall`: scan left to right; after a match go on where it ended,
      otherwise one character further. */
  function FindArgs(d: Dialect, s: string): (r: seq<Arg>)
    ensures forall i :: 0 <= i < |r| ==> WellFormed(d, r[i])
    decreases |s|
  {
    if s == [] then []
    else match MatchArg(d, s)
      case Some((a, n)) => [a] + FindArgs(d, s[n..])
      case None => FindArgs(d, s[1..])
  }

  /** A well-formed pair is matched whole when a space or the end follows it. */
  lemma MatchRendered(d: Dialect, a: Arg, t: string)
    requires WellFormed(d, a)
    requires t == [] || t[0] == ' '
    ensures MatchArg(d, Render(a) + t) == Some((a, |Render(a)|))
  {
    var rest := a.quote + a.value + a.quote + t;
    assert Render(a) + t == a.key + ("=" + rest);
    MatchArgAfterKey(d, a.key, rest);
    MatchValueRendered(d, a, t);
  }

  lemma MatchArgAfterKey(d: Dialect, key: string, rest: string)
    requires key != [] && All(key, IsFieldChar)
    ensures MatchArg(d, key + ("=" + rest)) == MatchValue(d, key, rest)
  {
    var s := key + ("=" + rest);
    assert s[..|key|] == key;
    assert s[|key|] == '=';
    LeadLenExact(s, IsFieldChar, |key|);
    assert s[|key| + 1..] == rest;
  }

  lemma MatchValueRendered(d: Dialect, a: Arg, t: string)
    requires WellFormed(d, a)
    requires t == [] || t[0] == ' '
    ensures MatchValue(d, a.key, a.quote + a.value + a.quote + t) == Some((a, |Render(a)|))
  {
    if a.quote == "" {
      assert a.quote + a.value + a.quote + t == a.value + t;
      MatchValueBare(d, a.key, a.value, t);
    } else {
      assert a.quote + a.value + a.quote + t == [a.quote[0]] + (a.value + ([a.quote[0]] + t));
      MatchValueQuoted(d, a.key, a.quote[0], a.value, t);
    }
  }

  lemma MatchValueBare(d: Dialect, key: string, v: string, t: string)
    requires key != [] && All(key, IsFieldChar)
    requires v != [] && forall i :: 0 <= i < |v| ==> IsValueChar(d, v[i])
    requires t == [] || t[0] == ' '
    ensures MatchValue(d, key, v + t) == Some((Arg(key, "", v), |key| + 1 + |v|))
  {
    var rest := v + t;
    assert rest[0] == v[0];
    assert v[0] != '"' && v[0] != '\'';
    ValueLenExact(d, rest, |v|);
  }

  lemma MatchValueQuoted(d: Dialect, key: string, q: char, v: string, t: string)
    requires key != [] && All(key, IsFieldChar)
    requires q == '"' || q == '\''
    requires v != [] && forall i :: 0 <= i < |v| ==> IsValueChar(d, v[i])
    ensures MatchValue(d, key, [q] + (v + ([q] + t))) == Some((Arg(key, [q], v), |key| + |v| + 3))
  {
    var rest := [q] + (v + ([q] + t));
    assert rest[1..] == v + ([q] + t);
    ValueLenExact(d, rest[1..], |v|);
    assert rest[1..|v| + 1] == v;
    assert rest[|v| + 1] == q;
  }

  /** A space never starts a match, so the scan steps over it. */
  lemma SkipSpace(d: Dialect, t: string)
    ensures FindArgs(d, " " + t) == FindArgs(d, t)
  {
    assert MatchArg(d, " " + t) == None;
    assert (" " + t)[1..] == t;
  }

  lemma FindArgsAfterMatch(d: Dialect, s: string, a: Arg, t: string)
    requires MatchArg(d, s + t) == Some((a, |s|))
    ensures FindArgs(d, s + t) == [a] + FindArgs(d, t)
  {
    assert (s + t)[|s|..] == t;
  }

  /** Space-separated pairs. */
  function RenderAll(args: seq<Arg>): string
    decreases |args|
  {
    if |args| == 0 then ""
    else if |args| == 1 then Render(args[0])
    else Render(args[0]) + " " + RenderAll(args[1..])
  }

  /** Scanning the text of a list of pairs finds exactly those pairs. */
  lemma {:induction false} FindArgsRenderAll(d: Dialect, args: seq<Arg>)
    requires forall i :: 0 <= i < |args| ==> WellFormed(d, args[i])
    ensures FindArgs(d, RenderAll(args)) == args
    decreases |args|
  {
    if |args| == 1 {
      assert RenderAll(args) == Render(args[0]) + [];
      MatchRendered(d, args[0], []);
      FindArgsAfterMatch(d, Render(args[0]), args[0], []);
    } else if |args| > 1 {
      var rest := RenderAll(args[1..]);
      assert RenderAll(args) == Render(args[0]) + (" " + rest);
      MatchRendered(d, args[0], " " + rest);
      FindArgsAfterMatch(d, Render(args[0]), args[0], " " + rest);
      SkipSpace(d, rest);
      FindArgsRenderAll(d, args[1..]);
      assert args == [args[0]] + args[1..];
    }
  }

  /** The value of the last pair with the given key, if any pair has it. */
  function LastValue(args: seq<Arg>, key: string): Option<string>
    decreases |args|
  {
    if args == [] then None
    else if args[|args| - 1].key == key then Some(args[|args| - 1].value)
    else LastValue(args[..|args| - 1], key)
  }

  /** `LastValue` is None exactly when no pair has the key, and otherwise the
      value of a pair with the key that no later pair shares. */
  lemma {:induction false} LastValueSpec(args: seq<Arg>, key: string)
    ensures LastValue(args, key).None? <==> forall j :: 0 <= j < |args| ==> args[j].key != key
    ensures LastValue(args, key).Some? ==>
              exists j :: 0 <= j < |args| && args[j].key == key && args[j].value == LastValue(args, key).value
                          && forall k :: j < k < |args| ==> args[k].key != key
    decreases |args|
  {
    if args != [] && args[|args| - 1].key != key {
      var init := args[..|args| - 1];
      LastValueSpec(init, key);
      assert forall j :: 0 <= j < |init| ==> init[j] == args[j];
    }
  }
}
