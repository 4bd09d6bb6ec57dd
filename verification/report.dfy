/** End-of-run reporting in `main` of main/myanon.c: a warning for every
    configured field and JSON sub-field never found in the dump, and the
    statistics total of anonymizations. The registry (a uthash table,
    walked in its list order) is a sequence of field records. */
module Report {

  /** `unsigned long`, 64 bits wide. */
  const ULONG_MOD: int := 0x1_0000_0000_0000_0000
  type ulong = x: int | 0 <= x < ULONG_MOD

  /** A JSON sub-field of a configured field and its hit counter. */
  datatype JsonField = JsonField(key: string, nbhits: ulong)

  /** A configured field, its hit counter and its JSON sub-fields. */
  datatype Field = Field(key: string, nbhits: ulong, json: seq<JsonField>)

  /** A warning line: a field, or a JSON sub-field of a field, was never found. */
  datatype Warning = FieldNotFound(field: string) | JsonNotFound(field: string, json: string)

  /** A statistics line: a field and how many times it was anonymized. */
  datatype FieldCount = FieldCount(field: string, nbhits: ulong)

  /** The warnings for the unmatched sub-fields in `js` of field `field`, in order. */
  function JsonWarnings(field: string, js: seq<JsonField>): seq<Warning> {
    if js == [] then []
    else
      var last := js[|js| - 1];
      JsonWarnings(field, js[..|js| - 1]) +
      (if last.nbhits == 0 then [JsonNotFound(field, last.key)] else [])
  }

  /** The warnings for one field: those of its JSON sub-fields, then its own. */
  function FieldWarnings(f: Field): seq<Warning> {
    JsonWarnings(f.key, f.json) + (if f.nbhits == 0 then [FieldNotFound(f.key)] else [])
  }

  /** The warnings for a registry, field by field in list order. */
  function Warnings(infos: seq<Field>): seq<Warning> {
    if infos == [] then [] else Warnings(infos[..|infos| - 1]) + FieldWarnings(infos[|infos| - 1])
  }

  /** The sum of the hit counters of the top-level fields. */
  function SumHits(infos: seq<Field>): nat {
    if infos == [] then 0 else SumHits(infos[..|infos| - 1]) + infos[|infos| - 1].nbhits
  }

  /** A sub-field warning is issued exactly for the sub-fields with no hit. */
  lemma {:induction false} JsonWarningsExact(field: string, js: seq<JsonField>, w: Warning)
    ensures w in JsonWarnings(field, js) <==>
      exists m :: 0 <= m < |js| && js[m].nbhits == 0 && w == JsonNotFound(field, js[m].key)
  {
    if js != [] {
      var init := js[..|js| - 1];
      JsonWarningsExact(field, init, w);
      if w in JsonWarnings(field, js) && w !in JsonWarnings(field, init) {
        assert js[|js| - 1].nbhits == 0 && w == JsonNotFound(field, js[|js| - 1].key);
      }
      if exists m :: 0 <= m < |js| && js[m].nbhits == 0 && w == JsonNotFound(field, js[m].key) {
        var m :| 0 <= m < |js| && js[m].nbhits == 0 && w == JsonNotFound(field, js[m].key);
        if m < |js| - 1 {
          assert init[m] == js[m];
        }
      }
    }
  }

  /** Field warnings: one is issued exactly for the fields with no hit. */
  lemma {:induction false} FieldWarningExact(infos: seq<Field>, key: string)
    ensures FieldNotFound(key) in Warnings(infos) <==>
      exists i :: 0 <= i < |infos| && infos[i].key == key && infos[i].nbhits == 0
  {
    if infos != [] {
      var init, last := infos[..|infos| - 1], infos[|infos| - 1];
      FieldWarningExact(init, key);
      JsonWarningsExact(last.key, last.json, FieldNotFound(key));
      if exists i :: 0 <= i < |infos| && infos[i].key == key && infos[i].nbhits == 0 {
        var i :| 0 <= i < |infos| && infos[i].key == key && infos[i].nbhits == 0;
        if i < |infos| - 1 {
          assert init[i] == infos[i];
        }
      }
    }
  }

  /** JSON warnings: one is issued exactly for the sub-fields with no hit,
      naming their parent field. */
  lemma {:induction false} JsonWarningExact(infos: seq<Field>, key: string, jkey: string)
    ensures JsonNotFound(key, jkey) in Warnings(infos) <==>
      exists i, m :: 0 <= i < |infos| && 0 <= m < |infos[i].json| && infos[i].key == key &&
                     infos[i].json[m].key == jkey && infos[i].json[m].nbhits == 0
  {
    if infos != [] {
      var init, last := infos[..|infos| - 1], infos[|infos| - 1];
      var w := JsonNotFound(key, jkey);
      JsonWarningExact(init, key, jkey);
      JsonWarningsExact(last.key, last.json, w);
      if exists i, m :: 0 <= i < |infos| && 0 <= m < |infos[i].json| && infos[i].key == key &&
                        infos[i].json[m].key == jkey && infos[i].json[m].nbhits == 0 {
        var i, m :| 0 <= i < |infos| && 0 <= m < |infos[i].json| && infos[i].key == key &&
                    infos[i].json[m].key == jkey && infos[i].json[m].nbhits == 0;
        if i < |infos| - 1 {
          assert init[i] == infos[i];
        } else {
          assert last.json[m].nbhits == 0 && w == JsonNotFound(last.key, last.json[m].key);
        }
      }
    }
  }

  /** Warnings of a concatenated registry are those of its parts, in order. */
  lemma {:induction false} WarningsConcat(a: seq<Field>, b: seq<Field>)
    ensures Warnings(a + b) == Warnings(a) + Warnings(b)
  {
    if b == [] {
      assert a + b == a;
    } else {
      assert (a + b)[..|a + b| - 1] == a + b[..|b| - 1];
      WarningsConcat(a, b[..|b| - 1]);
    }
  }

  /** The warnings are grouped by field in list order, and within the
      group of field `i` its JSON warnings come before its own. */
  lemma {:induction false} WarningsGroupedByField(infos: seq<Field>, i: nat)
    requires i < |infos|
    ensures Warnings(infos) == Warnings(infos[..i]) + FieldWarnings(infos[i]) + Warnings(infos[i + 1..])
  {
    var pre, mid, post := infos[..i], [infos[i]], infos[i + 1..];
    assert Warnings(infos) == Warnings(pre) + Warnings(mid) + Warnings(post) by {
      assert infos == (pre + mid) + post;
      WarningsConcat(pre + mid, post);
      WarningsConcat(pre, mid);
    }
    assert Warnings(mid) == FieldWarnings(infos[i]) by {
      assert mid[..0] == [];
    }
  }

  /** The counter sum of a concatenated registry is the sum of its parts' sums. */
  lemma {:induction false} SumHitsConcat(a: seq<Field>, b: seq<Field>)
    ensures SumHits(a + b) == SumHits(a) + SumHits(b)
  {
    if b == [] {
      assert a + b == a;
    } else {
      assert (a + b)[..|a + b| - 1] == a + b[..|b| - 1];
      SumHitsConcat(a, b[..|b| - 1]);
    }
  }

  /** Every top-level counter is at most the (unbounded) sum of the counters. */
  lemma {:induction false} SumHitsBound(infos: seq<Field>, i: nat)
    requires i < |infos|
    ensures infos[i].nbhits <= SumHits(infos)
  {
    assert infos == infos[..i] + [infos[i]] + infos[i + 1..];
    SumHitsConcat(infos[..i] + [infos[i]], infos[i + 1..]);
    SumHitsConcat(infos[..i], [infos[i]]);
    assert [infos[i]][..0] == [];
  }

  /** The (unbounded) sum of the counters is 0 exactly when no top-level
      field had a hit; hits of JSON sub-fields do not enter it. */
  lemma {:induction false} TotalZeroIffNoHits(infos: seq<Field>)
    ensures SumHits(infos) == 0 <==> forall i :: 0 <= i < |infos| ==> infos[i].nbhits == 0
  {
    if infos != [] {
      var init := infos[..|infos| - 1];
      TotalZeroIffNoHits(init);
      assert forall i :: 0 <= i < |init| ==> init[i] == infos[i];
    }
  }

  /** The registry's keys are unique, as the hash table guarantees. */
  predicate UniqueKeys(infos: seq<Field>) {
    forall i, j :: 0 <= i < j < |infos| ==> infos[i].key != infos[j].key
  }

  /** With unique keys, the (unbounded) sum of the counters is 0 exactly
      when every top-level field gets a warning. */
  lemma {:induction false} TotalZeroIffAllWarned(infos: seq<Field>)
    requires UniqueKeys(infos)
    ensures SumHits(infos) == 0 <==> forall i :: 0 <= i < |infos| ==> FieldNotFound(infos[i].key) in Warnings(infos)
  {
    TotalZeroIffNoHits(infos);
    forall i | 0 <= i < |infos|
      ensures FieldNotFound(infos[i].key) in Warnings(infos) <==> infos[i].nbhits == 0
    {
      FieldWarningExact(infos, infos[i].key);
    }
  }

  /** When the sum of the counters fits in an `unsigned long`, the printed
      total (what StatsReport returns) is 0 exactly when no top-level field
      had a hit, and no counter exceeds it. */
  lemma {:induction false} PrintedTotalZeroIffNoHits(infos: seq<Field>)
    requires SumHits(infos) < ULONG_MOD
    ensures SumHits(infos) % ULONG_MOD == 0 <==> forall i :: 0 <= i < |infos| ==> infos[i].nbhits == 0
    ensures forall i :: 0 <= i < |infos| ==> infos[i].nbhits <= SumHits(infos) % ULONG_MOD
  {
    TotalZeroIffNoHits(infos);
    forall i | 0 <= i < |infos| ensures infos[i].nbhits <= SumHits(infos) {
      SumHitsBound(infos, i);
    }
  }

  /** Without that bound the printed total wraps around: two fields with
      2^63 hits each print a total of 0. */
  lemma {:induction false} PrintedTotalCanWrap()
    ensures exists infos: seq<Field> :: |infos| == 2 &&
              (forall i :: 0 <= i < |infos| ==> infos[i].nbhits != 0) &&
              SumHits(infos) % ULONG_MOD == 0
  {
    var half: ulong := 0x8000_0000_0000_0000;
    var infos := [Field("a", half, []), Field("b", half, [])];
    assert infos[..1][..0] == [];
    assert SumHits(infos[..1]) == half;
    assert SumHits(infos) == ULONG_MOD;
  }

  /** The warning loop of `main`: for each field in list order, a warning
      for each of its JSON sub-fields with no hit, then one for the field
      itself if it had no hit. */
  method UnmatchedWarnings(infos: seq<Field>) returns (warnings: seq<Warning>)
    ensures warnings == Warnings(infos)
    ensures forall key :: FieldNotFound(key) in warnings <==>
      exists i :: 0 <= i < |infos| && infos[i].key == key && infos[i].nbhits == 0
    ensures forall key, jkey :: JsonNotFound(key, jkey) in warnings <==>
      exists i, m :: 0 <= i < |infos| && 0 <= m < |infos[i].json| && infos[i].key == key &&
                     infos[i].json[m].key == jkey && infos[i].json[m].nbhits == 0
  {
    warnings := [];
    var i := 0;
    while i < |infos|
      invariant i <= |infos|
      invariant warnings == Warnings(infos[..i])
    {
      var cur := infos[i];
      var j := 0;
      while j < |cur.json|
        invariant j <= |cur.json|
        invariant warnings == Warnings(infos[..i]) + JsonWarnings(cur.key, cur.json[..j])
      {
        assert cur.json[..j + 1][..j] == cur.json[..j];
        if cur.json[j].nbhits == 0 {
          warnings := warnings + [JsonNotFound(cur.key, cur.json[j].key)];
        }
        j := j + 1;
      }
      assert cur.json[..j] == cur.json;
      if cur.nbhits == 0 {
        warnings := warnings + [FieldNotFound(cur.key)];
      }
      assert infos[..i + 1][..i] == infos[..i];
      i := i + 1;
    }
    assert infos[..i] == infos;
    forall key {
      FieldWarningExact(infos, key);
    }
    forall key, jkey {
      JsonWarningExact(infos, key, jkey);
    }
  }

  /** The statistics loop of `main`: one line per top-level field with its
      counter, and the total accumulated in an `unsigned long`, so modulo
      2^64. */
  method StatsReport(infos: seq<Field>) returns (lines: seq<FieldCount>, total: ulong)
    ensures |lines| == |infos|
    ensures forall i :: 0 <= i < |infos| ==> lines[i] == FieldCount(infos[i].key, infos[i].nbhits)
    ensures total == SumHits(infos) % ULONG_MOD
    ensures SumHits(infos) < ULONG_MOD ==> total == SumHits(infos)
  {
    lines, total := [], 0;
    var i := 0;
    while i < |infos|
      invariant i <= |infos| && |lines| == i
      invariant forall k :: 0 <= k < i ==> lines[k] == FieldCount(infos[k].key, infos[k].nbhits)
      invariant total == SumHits(infos[..i]) % ULONG_MOD
    {
      assert infos[..i + 1][..i] == infos[..i];
      lines := lines + [FieldCount(infos[i].key, infos[i].nbhits)];
      total := (total + infos[i].nbhits) % ULONG_MOD;
      i := i + 1;
    }
    assert infos[..i] == infos;
  }
}
