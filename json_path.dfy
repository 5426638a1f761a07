/**
 * Dotted-path lookup into a JSON document (`getValueFromJsonByPath`).
 *
 * The path is split on '.', segments equal to "$" are skipped, and every
 * other segment descends into the current object. A missing field, a field
 * holding null, or a segment applied to something that is not an object
 * turns the cursor into null, and null stays null for the rest of the path.
 */
module JsonPath {

  datatype Json =
    | JNull
    | JNumber(n: real)
    | JBool(b: bool)
    | JString(s: string)
    | JObject(fields: map<string, Json>)

  /** The root marker, skipped wherever it occurs in a path. */
  const Root: string := "$"

  // ---------------------------------------------------------------------
  // Splitting and joining on '.'
  // ---------------------------------------------------------------------

  /** `s.split('.')`: never empty, and no part contains a dot. */
  function Split(s: string): (parts: seq<string>)
    ensures |parts| >= 1
    ensures forall i :: 0 <= i < |parts| ==> '.' !in parts[i]
    decreases |s|
  {
    if |s| == 0 then [""]
    else if s[0] == '.' then [""] + Split(s[1..])
    else
      var rest := Split(s[1..]);
      [[s[0]] + rest[0]] + rest[1..]
  }

  /** `parts.join('.')`, the inverse of Split. */
  function Join(parts: seq<string>): string
    decreases |parts|
  {
    if |parts| == 0 then ""
    else if |parts| == 1 then parts[0]
    else parts[0] + "." + Join(parts[1..])
  }

  lemma {:induction false} JoinHead(p: string, rest: seq<string>)
    requires |rest| >= 1
    ensures Join([p] + rest) == p + "." + Join(rest)
  {
    assert ([p] + rest)[1..] == rest;
  }

  /** Prefixing a character to the first part prefixes it to the join. */
  lemma {:induction false} JoinConsFirst(c: char, parts: seq<string>)
    requires |parts| >= 1
    ensures Join([[c] + parts[0]] + parts[1..]) == [c] + Join(parts)
  {
    if |parts| > 1 {
      JoinHead([c] + parts[0], parts[1..]);
      JoinHead(parts[0], parts[1..]);
      assert parts == [parts[0]] + parts[1..];
    }
  }

  /** Joining the parts of a split gives back the original string. */
  lemma {:induction false} JoinSplit(s: string)
    ensures Join(Split(s)) == s
    decreases |s|
  {
    if |s| > 0 {
      JoinSplit(s[1..]);
      if s[0] == '.' {
        JoinHead("", Split(s[1..]));
      } else {
        JoinConsFirst(s[0], Split(s[1..]));
      }
      assert s == [s[0]] + s[1..];
    }
  }

  /** Splitting a join of dot-free parts gives back the parts. */
  lemma {:induction false} SplitJoin(parts: seq<string>)
    requires |parts| >= 1
    requires forall i :: 0 <= i < |parts| ==> '.' !in parts[i]
    ensures Split(Join(parts)) == parts
    decreases |parts|
  {
    if |parts| == 1 {
      SplitDotFree(parts[0]);
    } else {
      var tail := parts[1..];
      assert Join(parts) == parts[0] + "." + Join(tail);
      SplitJoin(tail);
      SplitConcat(parts[0], Join(tail));
      SplitDotFree(parts[0]);
      assert parts == [parts[0]] + tail;
    }
  }

  /** A string without a dot is a single segment. */
  lemma {:induction false} SplitDotFree(f: string)
    requires '.' !in f
    ensures Split(f) == [f]
    decreases |f|
  {
    if |f| > 0 {
      assert '.' !in f[1..] by {
        forall k | 0 <= k < |f[1..]| ensures f[1..][k] != '.' {
          assert f[1..][k] == f[k + 1];
        }
      }
      SplitDotFree(f[1..]);
      assert f == [f[0]] + f[1..];
    }
  }

  /** Splitting `p + "." + q` splits `p` and `q` separately. */
  lemma {:induction false} SplitConcat(p: string, q: string)
    ensures Split(p + "." + q) == Split(p) + Split(q)
    decreases |p|
  {
    var s := p + "." + q;
    if |p| == 0 {
      assert s[1..] == q;
    } else {
      assert s[1..] == p[1..] + "." + q;
      SplitConcat(p[1..], q);
      if p[0] != '.' {
        SplitConsConcat(p[0], Split(p[1..]), Split(q));
      }
    }
  }

  /** The non-dot step of Split commutes with appending further parts. */
  lemma SplitConsConcat(c: char, a: seq<string>, b: seq<string>)
    requires |a| >= 1
    ensures [[c] + (a + b)[0]] + (a + b)[1..] == ([[c] + a[0]] + a[1..]) + b
  {
    assert (a + b)[0] == a[0];
    assert (a + b)[1..] == a[1..] + b;
  }

  // ---------------------------------------------------------------------
  // The lookup, as a left fold over the segments
  // ---------------------------------------------------------------------

  /** One iteration of the `forEach` body. */
  function Step(cur: Json, field: string): Json
  {
    if field == Root || cur == JNull then cur
    else match cur
      case JObject(m) => if field in m then m[field] else JNull
      case _ => JNull
  }

  /** The cursor after walking `fields` from `cur`. */
  function Fold(cur: Json, fields: seq<string>): Json
    decreases |fields|
  {
    if |fields| == 0 then cur else Fold(Step(cur, fields[0]), fields[1..])
  }

  /** `getValueFromJsonByPath(json, path)` as a recursive specification. */
  function Lookup(json: Json, path: string): Json
  {
    Fold(json, Split(path))
  }

  /** The source's loop: the cursor updated segment by segment. */
  method GetValueFromJsonByPath(json: Json, path: string) returns (cur: Json)
    ensures cur == Lookup(json, path)
  {
    var parts := Split(path);
    cur := json;
    for i := 0 to |parts|
      invariant Fold(cur, parts[i..]) == Lookup(json, path)
    {
      var field := parts[i];
      assert parts[i..] == [field] + parts[i + 1..];
      if field != Root && cur != JNull {
        match cur {
          case JObject(m) =>
            if field in m {
              cur := m[field];
            } else {
              cur := JNull;
            }
          case _ =>
            cur := JNull;
        }
      }
    }
  }

  /** Walking `a + b` is walking `a`, then `b` from where `a` ended. */
  lemma {:induction false} FoldAppend(j: Json, a: seq<string>, b: seq<string>)
    ensures Fold(j, a + b) == Fold(Fold(j, a), b)
    decreases |a|
  {
    if |a| > 0 {
      assert (a + b)[0] == a[0];
      assert (a + b)[1..] == a[1..] + b;
      FoldAppend(Step(j, a[0]), a[1..], b);
    } else {
      assert a + b == b;
    }
  }

  /** Once the cursor is null, every later segment leaves it null. */
  lemma {:induction false} FoldNull(fields: seq<string>)
    ensures Fold(JNull, fields) == JNull
    decreases |fields|
  {
    if |fields| > 0 {
      FoldNull(fields[1..]);
    }
  }

  /** Walking a single segment is one step. */
  lemma FoldSingle(j: Json, f: string)
    ensures Fold(j, [f]) == Step(j, f)
  {
    assert [f][1..] == [];
  }

  /** A "$" segment is skipped wherever it occurs. */
  lemma {:induction false} RootSegmentSkipped(j: Json, a: seq<string>, b: seq<string>)
    ensures Fold(j, a + [Root] + b) == Fold(j, a + b)
  {
    FoldAppend(j, a + [Root], b);
    FoldAppend(j, a, [Root]);
    FoldAppend(j, a, b);
  }

  /** The path "$" returns the document unchanged. */
  lemma RootPathIsIdentity(j: Json)
    ensures Lookup(j, Root) == j
  {
    SplitDotFree(Root);
    FoldSingle(j, Root);
  }

  /** A leading "$." is skipped: `$.q` looks up `q`. */
  lemma RootPrefixSkipped(j: Json, q: string)
    ensures Lookup(j, Root + "." + q) == Lookup(j, q)
  {
    LookupCompose(j, Root, q);
    RootPathIsIdentity(j);
  }

  /**
   * The lookup is compositional: looking up `p.q` is looking up `q` in the
   * result of looking up `p`.
   */
  lemma LookupCompose(j: Json, p: string, q: string)
    ensures Lookup(j, p + "." + q) == Lookup(Lookup(j, p), q)
  {
    SplitConcat(p, q);
    FoldAppend(j, Split(p), Split(q));
  }

  /** A single dot-free field names a direct member of an object, or gives null. */
  lemma LookupField(m: map<string, Json>, f: string)
    requires '.' !in f && f != Root
    ensures Lookup(JObject(m), f) == if f in m then m[f] else JNull
  {
    SplitDotFree(f);
    FoldSingle(JObject(m), f);
  }

  /** A field absent from the object makes the whole lookup null. */
  lemma MissingFieldIsNull(m: map<string, Json>, f: string, q: string)
    requires '.' !in f && f != Root && f !in m
    ensures Lookup(JObject(m), f) == JNull
    ensures Lookup(JObject(m), f + "." + q) == JNull
  {
    LookupField(m, f);
    LookupCompose(JObject(m), f, q);
    FoldNull(Split(q));
  }

  /** A field explicitly holding null is indistinguishable from a missing one. */
  lemma ExplicitNullIsMissing(m: map<string, Json>, f: string, q: string)
    requires '.' !in f && f != Root && f in m && m[f] == JNull
    ensures Lookup(JObject(m), f + "." + q) == Lookup(JObject(m - {f}), f + "." + q) == JNull
  {
    LookupField(m, f);
    LookupField(m - {f}, f);
    LookupCompose(JObject(m), f, q);
    LookupCompose(JObject(m - {f}), f, q);
    FoldNull(Split(q));
  }

  /** A segment applied to a non-object gives null. */
  lemma ScalarHasNoFields(j: Json, f: string)
    requires !j.JObject? && '.' !in f && f != Root
    ensures Lookup(j, f) == JNull
  {
    SplitDotFree(f);
    FoldSingle(j, f);
  }

  /** A null prefix makes every longer path null. */
  lemma NullPrefixIsNull(j: Json, p: string, q: string)
    requires Lookup(j, p) == JNull
    ensures Lookup(j, p + "." + q) == JNull
  {
    LookupCompose(j, p, q);
    FoldNull(Split(q));
  }

  /** A present field is descended into. */
  lemma PresentFieldDescends(m: map<string, Json>, f: string, q: string)
    requires '.' !in f && f != Root && f in m
    ensures Lookup(JObject(m), f + "." + q) == Lookup(m[f], q)
  {
    LookupField(m, f);
    LookupCompose(JObject(m), f, q);
  }

  /** `$.a.b` on `{a: {b: v}}` is `v`. */
  lemma RootedNestedExample(v: Json)
    ensures Lookup(JObject(map["a" := JObject(map["b" := v])]), "$.a.b") == v
  {
    var inner := JObject(map["b" := v]);
    var doc := JObject(map["a" := inner]);
    assert "$.a.b" == Root + "." + ("a" + "." + "b");
    RootPrefixSkipped(doc, "a" + "." + "b");
    PresentFieldDescends(map["a" := inner], "a", "b");
    LookupField(map["b" := v], "b");
  }
}
