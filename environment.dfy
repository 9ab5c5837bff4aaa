/**
 * The process-wide environment snapshot taken by the package initialiser:
 * every `K=V` string becomes an entry K -> V, later strings overwriting
 * earlier ones. The list of strings is an input here instead of being read
 * from the running process.
 */
module Environment {
  import opened Wrappers

  /** strings.Split(s, string(sep)) for a one-character separator. */
  function Split(s: string, sep: char): (parts: seq<string>)
    ensures |parts| == multiset(s)[sep] + 1
    ensures forall i :: 0 <= i < |parts| ==> sep !in parts[i]
  {
    if s == [] then [""]
    else
      assert s == [s[0]] + s[1..];
      var rest := Split(s[1..], sep);
      if s[0] == sep then [""] + rest
      else [[s[0]] + rest[0]] + rest[1..]
  }

  /** strings.Join(parts, string(sep)): the inverse of Split. */
  function Join(parts: seq<string>, sep: char): string
  {
    if parts == [] then ""
    else if |parts| == 1 then parts[0]
    else parts[0] + [sep] + Join(parts[1..], sep)
  }

  lemma {:induction false} JoinSplit(s: string, sep: char)
    ensures Join(Split(s, sep), sep) == s
  {
    if s != [] {
      JoinSplit(s[1..], sep);
      JoinSplitCons(s[0], s[1..], sep);
      assert s == [s[0]] + s[1..];
    }
  }

  /** One more character in front keeps Join undoing Split. */
  lemma JoinSplitCons(c: char, t: string, sep: char)
    requires Join(Split(t, sep), sep) == t
    ensures Join(Split([c] + t, sep), sep) == [c] + t
  {
    var s := [c] + t;
    assert s[0] == c && s[1..] == t;
    var rest := Split(t, sep);
    var more := JoinTail(rest[1..], sep);
    JoinCons(rest[0], rest[1..], sep);
    assert rest == [rest[0]] + rest[1..];
    if c == sep {
      assert Split(s, sep) == [""] + rest;
      JoinCons("", rest, sep);
    } else {
      assert Split(s, sep) == [[c] + rest[0]] + rest[1..];
      JoinCons([c] + rest[0], rest[1..], sep);
      AppendAssoc([c], rest[0], more);
    }
  }

  /** What Join puts after the first part: nothing, or the separator and the rest joined. */
  function JoinTail(parts: seq<string>, sep: char): string
  {
    if parts == [] then "" else [sep] + Join(parts, sep)
  }

  /** Joining a piece in front of a list puts the separator between them when the list is not empty. */
  lemma JoinCons(piece: string, parts: seq<string>, sep: char)
    ensures Join([piece] + parts, sep) == piece + JoinTail(parts, sep)
  {
    assert ([piece] + parts)[1..] == parts;
    if parts == [] {
      assert piece + "" == piece;
    } else {
      AppendAssoc(piece, [sep], Join(parts, sep));
    }
  }

  lemma AppendAssoc(a: string, b: string, c: string)
    ensures (a + b) + c == a + (b + c)
  {
  }

  lemma {:induction false} SplitJoin(parts: seq<string>, sep: char)
    requires parts != []
    requires forall i :: 0 <= i < |parts| ==> sep !in parts[i]
    ensures Split(Join(parts, sep), sep) == parts
  {
    if |parts| == 1 {
      SplitWithoutSeparator(parts[0], sep);
    } else {
      SplitJoin(parts[1..], sep);
      SplitAfterPiece(parts[0], Join(parts[1..], sep), sep);
      assert parts == [parts[0]] + parts[1..];
    }
  }

  lemma {:induction false} SplitWithoutSeparator(s: string, sep: char)
    requires sep !in s
    ensures Split(s, sep) == [s]
  {
    if s != [] {
      SplitWithoutSeparator(s[1..], sep);
      assert s == [s[0]] + s[1..];
    }
  }

  lemma {:induction false} SplitAfterPiece(piece: string, tail: string, sep: char)
    requires sep !in piece
    ensures Split(piece + [sep] + tail, sep) == [piece] + Split(tail, sep)
  {
    if piece == [] {
      assert piece + [sep] + tail == [sep] + tail;
      SplitCons(sep, tail, sep);
    } else {
      var c, more := piece[0], piece[1..];
      assert piece == [c] + more;
      assert piece + [sep] + tail == [c] + (more + [sep] + tail);
      SplitAfterPiece(more, tail, sep);
      var r := Split(more + [sep] + tail, sep);
      assert r[0] == more && r[1..] == Split(tail, sep);
      SplitCons(c, more + [sep] + tail, sep);
    }
  }

  /** Split on a string with one more character in front. */
  lemma SplitCons(c: char, t: string, sep: char)
    ensures Split([c] + t, sep) ==
      var rest := Split(t, sep);
      if c == sep then [""] + rest else [[c] + rest[0]] + rest[1..]
  {
    assert ([c] + t)[0] == c && ([c] + t)[1..] == t;
  }

  /** One environment string: kept only when it splits on '=' into exactly two parts. */
  function ParseEntry(entry: string): (r: Option<(string, string)>)
    ensures r.Some? ==> multiset(entry)['='] == 1 && '=' !in r.value.0 && '=' !in r.value.1
  {
    var parts := Split(entry, '=');
    if |parts| == 2 then Some((parts[0], parts[1])) else None
  }

  /**
   * An entry is kept exactly when it holds one '=', and it is then the key,
   * the '=' and the value; an entry with no '=' or with several is ignored.
   */
  lemma ParseEntryMeaning(entry: string)
    ensures ParseEntry(entry).Some? <==> multiset(entry)['='] == 1
    ensures ParseEntry(entry).Some? ==>
      var (k, v) := ParseEntry(entry).value;
      entry == k + "=" + v && '=' !in k && '=' !in v
  {
    var parts := Split(entry, '=');
    if |parts| == 2 {
      JoinSplit(entry, '=');
      assert Join(parts[1..], '=') == parts[1];
    }
  }

  /** Every key without '=' and value without '=' survives parsing unchanged. */
  lemma ParseEntryOfPair(k: string, v: string)
    requires '=' !in k && '=' !in v
    ensures ParseEntry(k + "=" + v) == Some((k, v))
  {
    SplitJoin([k, v], '=');
    assert Join([k, v], '=') == k + "=" + v;
  }

  /** The environment map built from a list of strings, in list order. */
  function EnvironmentOf(envVars: seq<string>): (env: map<string, string>)
    ensures forall k :: k in env ==> '=' !in k && '=' !in env[k]
  {
    if envVars == [] then map[]
    else
      var env := EnvironmentOf(envVars[..|envVars| - 1]);
      match ParseEntry(envVars[|envVars| - 1])
      case Some((k, v)) => env[k := v]
      case None => env
  }

  predicate DefinesKey(entry: string, k: string)
  {
    ParseEntry(entry).Some? && ParseEntry(entry).value.0 == k
  }

  /** The index of the last string that defines k, or -1 when none does. */
  function LastDefinition(envVars: seq<string>, k: string): (i: int)
    ensures -1 <= i < |envVars|
    ensures i >= 0 ==> DefinesKey(envVars[i], k)
    ensures forall j :: i < j < |envVars| ==> !DefinesKey(envVars[j], k)
  {
    if envVars == [] then -1
    else if DefinesKey(envVars[|envVars| - 1], k) then |envVars| - 1
    else
      var prefix := envVars[..|envVars| - 1];
      assert forall j :: 0 <= j < |prefix| ==> prefix[j] == envVars[j];
      LastDefinition(prefix, k)
  }

  /** K is in the snapshot iff some string defines it, and the last such string wins. */
  lemma {:induction false} EnvironmentLookup(envVars: seq<string>, k: string)
    ensures k in EnvironmentOf(envVars) <==> LastDefinition(envVars, k) >= 0
    ensures k in EnvironmentOf(envVars) ==>
      ParseEntry(envVars[LastDefinition(envVars, k)]) == Some((k, EnvironmentOf(envVars)[k]))
  {
    if envVars != [] {
      var prefix := envVars[..|envVars| - 1];
      EnvironmentLookup(prefix, k);
      if !DefinesKey(envVars[|envVars| - 1], k) {
        assert LastDefinition(envVars, k) == LastDefinition(prefix, k);
        if LastDefinition(prefix, k) >= 0 {
          assert envVars[LastDefinition(prefix, k)] == prefix[LastDefinition(prefix, k)];
        }
      }
    }
  }

  /** The package initialiser's loop over the process environment. */
  method ParseEnvironment(envVars: seq<string>) returns (env: map<string, string>)
    ensures env == EnvironmentOf(envVars)
  {
    env := map[];
    for i := 0 to |envVars|
      invariant env == EnvironmentOf(envVars[..i])
    {
      assert envVars[..i + 1][..i] == envVars[..i];
      var parts := Split(envVars[i], '=');
      if |parts| == 2 {
        env := env[parts[0] := parts[1]];
      }
    }
    assert envVars[..|envVars|] == envVars;
  }
}
