/** Cutting strings at a delimiter and putting them together again. */
module Tokens {

  /** All parts of `s` between delimiters, empty ones included. */
  function Fields(s: string, d: char): (f: seq<string>)
    ensures f != []
  {
    if s == [] then [[]]
    else
      var f := Fields(s[1..], d);
      if s[0] == d then [[]] + f else [[s[0]] + f[0]] + f[1..]
  }

  /** tokenize starts with NUL as the last character it saw, so the empty string
      has no parts unless the delimiter is NUL. */
  function Tokenized(s: string, d: char): seq<string>
  {
    if s == [] && d != '\0' then [] else Fields(s, d)
  }

  function NonEmpty(v: seq<string>): seq<string>
  {
    if v == [] then [] else (if v[0] == [] then [] else [v[0]]) + NonEmpty(v[1..])
  }

  function Joined(v: seq<string>, d: char): string
  {
    if v == [] then [] else if |v| == 1 then v[0] else v[0] + [d] + Joined(v[1..], d)
  }

  ghost predicate Free(v: seq<string>, d: char) { forall p | p in v :: d !in p }

  // ---------- Lemmas on parts ----------

  lemma {:induction false} FieldsOfPart(part: string, rest: string, d: char)
    requires d !in part
    ensures Fields(part + rest, d) == [part + Fields(rest, d)[0]] + Fields(rest, d)[1..]
  {
    var f := Fields(rest, d);
    if part == [] {
      assert part + rest == rest && part + f[0] == f[0];
    } else {
      FieldsOfPart(part[1..], rest, d);
      assert (part + rest)[1..] == part[1..] + rest;
      var g := Fields(part[1..] + rest, d);
      assert g[1..] == f[1..];
      assert [part[0]] + g[0] == part + f[0];
    }
  }

  lemma FieldsAtDelimiter(part: string, rest: string, d: char)
    requires d !in part
    ensures Fields(part + [d] + rest, d) == [part] + Fields(rest, d)
  {
    FieldsOfPart(part, [d] + rest, d);
    assert part + [d] + rest == part + ([d] + rest);
    var f := Fields([d] + rest, d);
    assert ([d] + rest)[1..] == rest;
    assert f[0] == [] && f[1..] == Fields(rest, d);
    assert part + f[0] == part;
  }

  lemma FieldsWhole(part: string, d: char)
    requires d !in part
    ensures Fields(part, d) == [part]
  {
    FieldsOfPart(part, [], d);
    assert part + [] == part && Fields([], d)[1..] == [];
  }

  lemma {:induction false} FieldsAreFree(s: string, d: char)
    ensures Free(Fields(s, d), d)
  {
    if s != [] {
      FieldsAreFree(s[1..], d);
    }
  }

  lemma {:induction false} NonEmptyConcat(a: seq<string>, b: seq<string>)
    ensures NonEmpty(a + b) == NonEmpty(a) + NonEmpty(b)
  {
    if a == [] {
      assert a + b == b;
    } else {
      NonEmptyConcat(a[1..], b);
      assert (a + b)[1..] == a[1..] + b && (a + b)[0] == a[0];
    }
  }

  lemma {:induction false} NonEmptyAll(v: seq<string>)
    requires forall p | p in v :: p != []
    ensures NonEmpty(v) == v
  {
    if v != [] {
      assert forall p | p in v[1..] :: p in v;
      NonEmptyAll(v[1..]);
      assert v == [v[0]] + v[1..] && v[0] in v;
    }
  }

  lemma {:induction false} NonEmptyMembers(v: seq<string>, p: string)
    ensures p in NonEmpty(v) <==> p in v && p != []
  {
    if v != [] {
      NonEmptyMembers(v[1..], p);
    }
  }

  // ---------- Round trips ----------

  lemma {:induction false} JoinFields(s: string, d: char)
    ensures Joined(Fields(s, d), d) == s
  {
    if s != [] {
      JoinFields(s[1..], d);
      var f := Fields(s[1..], d);
      if s[0] == d {
        assert Fields(s, d)[1..] == f;
        assert s == [] + [d] + s[1..];
      } else {
        assert Fields(s, d)[1..] == f[1..];
        assert s == [s[0]] + s[1..];
      }
    }
  }

  /** Joining what tokenize cut gives the string back. */
  lemma JoinTokenize(s: string, d: char)
    ensures Joined(Tokenized(s, d), d) == s
  {
    JoinFields(s, d);
  }

  lemma {:induction false} FieldsOfJoin(v: seq<string>, d: char)
    requires v != [] && Free(v, d)
    ensures Fields(Joined(v, d), d) == v
  {
    if |v| == 1 {
      FieldsWhole(v[0], d);
    } else {
      FieldsOfJoin(v[1..], d);
      FieldsAtDelimiter(v[0], Joined(v[1..], d), d);
      assert v == [v[0]] + v[1..];
    }
  }

  /** Cutting what was joined gives the parts back, exactly if they are not the
      single empty part. */
  lemma TokenizeJoin(v: seq<string>, d: char)
    requires v != [] && Free(v, d)
    ensures Tokenized(Joined(v, d), d) == v <==> !(v == [[]] && d != '\0')
  {
    FieldsOfJoin(v, d);
  }

  /** A slash-separated absolute path splits into its names. */
  lemma SplitPath(v: seq<string>, d: char)
    requires Free(v, d) && forall p | p in v :: p != []
    ensures NonEmpty(Fields([d] + Joined(v, d), d)) == v
  {
    var s := [d] + Joined(v, d);
    assert s[1..] == Joined(v, d);
    var f := Fields(s, d);
    assert f[0] == [] && f[1..] == Fields(Joined(v, d), d);
    if v != [] {
      FieldsOfJoin(v, d);
      NonEmptyAll(v);
    } else {
      assert NonEmpty(f[1..]) == [];
    }
  }

  // ---------- The loops ----------

  /** `result` and the unfinished `part` account for all of `s` but `rest`. */
  ghost predicate SplitSoFar(result: seq<string>, part: string, rest: string, s: string, d: char)
  {
    d !in part && result + NonEmpty(Fields(part + rest, d)) == NonEmpty(Fields(s, d))
  }

  lemma SplitCut(result: seq<string>, part: string, rest: string, s: string, d: char)
    requires SplitSoFar(result, part, [d] + rest, s, d)
    ensures SplitSoFar(if part == [] then result else result + [part], [], rest, s, d)
  {
    FieldsAtDelimiter(part, rest, d);
    assert part + [d] + rest == part + ([d] + rest) && [] + rest == rest;
    NonEmptyConcat([part], Fields(rest, d));
    Assembled(result, part, NonEmpty(Fields(rest, d)));
  }

  lemma Assembled(result: seq<string>, part: string, rest: seq<string>)
    ensures result + (NonEmpty([part]) + rest) == (if part == [] then result else result + [part]) + rest
  {
    assert NonEmpty([part]) == if part == [] then [] else [part];
  }

  lemma SplitGrow(result: seq<string>, part: string, c: char, rest: string, s: string, d: char)
    requires SplitSoFar(result, part, [c] + rest, s, d) && c != d
    ensures SplitSoFar(result, part + [c], rest, s, d)
  {
    assert part + [c] + rest == part + ([c] + rest);
  }

  lemma SplitEnd(result: seq<string>, part: string, s: string, d: char)
    requires SplitSoFar(result, part, [], s, d)
    ensures (if part == [] then result else result + [part]) == NonEmpty(Tokenized(s, d))
  {
    assert part + [] == part;
    FieldsWhole(part, d);
    assert NonEmpty([part]) == if part == [] then [] else [part];
    assert Tokenized(s, d) == [] ==> NonEmpty(Fields(s, d)) == [];
  }

  /** One character further, by either case. */
  lemma SplitStep(result: seq<string>, part: string, s: string, i: nat, d: char)
    requires i < |s| && SplitSoFar(result, part, s[i..], s, d)
    ensures s[i] == d ==> SplitSoFar(if part == [] then result else result + [part], [], s[i + 1..], s, d)
    ensures s[i] != d ==> SplitSoFar(result, part + [s[i]], s[i + 1..], s, d)
  {
    assert s[i..] == [s[i]] + s[i + 1..];
    if s[i] == d {
      SplitCut(result, part, s[i + 1..], s, d);
    } else {
      SplitGrow(result, part, s[i], s[i + 1..], s, d);
    }
  }

  method Split(s: string, delim: char) returns (result: seq<string>)
    ensures result == NonEmpty(Tokenized(s, delim))
  {
    result := [];
    var part: string := [];
    assert part + s[0..] == s;
    for i := 0 to |s|
      invariant SplitSoFar(result, part, s[i..], s, delim)
    {
      var c := s[i];
      SplitStep(result, part, s, i, delim);
      if c == delim {
        if part != [] {
          result := result + [part];
          part := [];
        }
      } else {
        part := part + [c];
      }
    }
    assert s[|s|..] == [];
    SplitEnd(result, part, s, delim);
    if part != [] {
      result := result + [part];
    }
  }

  /** One character further: a delimiter ends the part, anything else extends it. */
  lemma FieldsStep(result: seq<string>, part: string, s: string, i: nat, d: char)
    requires i < |s| && d !in part
    ensures s[i] == d ==> result + Fields(part + s[i..], d) == (result + [part]) + Fields([] + s[i + 1..], d)
    ensures s[i] != d ==> part + s[i..] == (part + [s[i]]) + s[i + 1..]
  {
    assert part + s[i..] == part + [s[i]] + s[i + 1..];
    if s[i] == d {
      FieldsAtDelimiter(part, s[i + 1..], d);
      assert [] + s[i + 1..] == s[i + 1..];
    }
  }

  method Tokenize(s: string, delim: char) returns (result: seq<string>)
    ensures result == Tokenized(s, delim)
  {
    result := [];
    var part: string := [];
    var last := '\0';
    assert part + s[0..] == s;
    for i := 0 to |s|
      invariant delim !in part
      invariant i > 0 ==> last == s[i - 1]
      invariant i == 0 ==> last == '\0' && part == [] && result == []
      invariant i > 0 && part == [] ==> last == delim
      invariant i > 0 && part != [] ==> last != delim
      invariant result + Fields(part + s[i..], delim) == Fields(s, delim)
    {
      var c := s[i];
      last := c;
      FieldsStep(result, part, s, i, delim);
      if c == delim {
        result := result + [part];
        part := [];
      } else {
        part := part + [c];
      }
    }
    assert part + s[|s|..] == part;
    FieldsWhole(part, delim);
    if part != [] || last == delim {
      result := result + [part];
    }
  }

  /** Each part followed by the delimiter. */
  function Ended(v: seq<string>, d: char): string
  {
    if v == [] then [] else v[0] + [d] + Ended(v[1..], d)
  }

  lemma {:induction false} EndedSnoc(v: seq<string>, p: string, d: char)
    ensures Ended(v + [p], d) == Ended(v, d) + p + [d]
  {
    if v == [] {
      assert v + [p] == [p];
    } else {
      EndedSnoc(v[1..], p, d);
      assert (v + [p])[1..] == v[1..] + [p];
    }
  }

  lemma {:induction false} JoinedIsEnded(v: seq<string>, d: char)
    requires v != []
    ensures Ended(v, d) == Joined(v, d) + [d]
  {
    if |v| > 1 {
      JoinedIsEnded(v[1..], d);
    }
  }

  method Join(v: seq<string>, delim: char) returns (result: string)
    ensures result == Joined(v, delim)
  {
    result := [];
    for i := 0 to |v|
      invariant result == Ended(v[..i], delim)
    {
      EndedSnoc(v[..i], v[i], delim);
      assert v[..i + 1] == v[..i] + [v[i]];
      result := result + v[i];
      result := result + [delim];
    }
    assert v[..|v|] == v;
    if v != [] {
      JoinedIsEnded(v, delim);
    }
    if result != [] {
      result := result[..|result| - 1];
    }
  }
}
