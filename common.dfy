/** Values shared by the whole model: nullable columns and request inputs,
    PHP truthiness, and the substring test behind SQL `LIKE '%x%'`. */
module Common {

  /** A nullable value: a column that may hold NULL, a header or query
      parameter that may be missing. */
  datatype Option<+T> = None | Some(value: T)

  /** A key of validated request data: either present (possibly with a null
      value) or absent altogether. Laravel's `fill` only assigns present keys. */
  datatype Field<+T> = Absent | Given(value: T)

  /** PHP's truthiness of a string input: `null`, `""` and `"0"` are falsy,
      every other string is truthy. */
  predicate Truthy(v: Option<string>)
  {
    v.Some? && v.value != "" && v.value != "0"
  }

  /** `p` occurs in `s` starting at position `i`. */
  predicate OccursAt(s: string, p: string, i: nat)
  {
    i + |p| <= |s| && s[i..i + |p|] == p
  }

  /** `s` contains `p` as a contiguous substring, scanned left to right. */
  predicate Contains(s: string, p: string)
    decreases |s|
  {
    if |p| > |s| then false
    else if p <= s then true
    else Contains(s[1..], p)
  }

  /** A slice of the tail is the slice of the whole shifted by one. */
  lemma TailSlice(s: string, i: nat, n: nat)
    requires 1 + i + n <= |s|
    ensures s[1..][i..i + n] == s[i + 1..i + 1 + n]
  {
  }

  /** The scan agrees with the positional definition of a substring, in both
      directions. */
  lemma {:induction false} ContainsIff(s: string, p: string)
    ensures Contains(s, p) <==> exists i: nat :: OccursAt(s, p, i)
    decreases |s|
  {
    if |p| > |s| {
      forall i: nat ensures !OccursAt(s, p, i) { }
    } else if p <= s {
      assert s[0..|p|] == p;
      assert OccursAt(s, p, 0);
    } else {
      ContainsIff(s[1..], p);
      if Contains(s[1..], p) {
        var i: nat :| OccursAt(s[1..], p, i);
        TailSlice(s, i, |p|);
        assert OccursAt(s, p, i + 1);
      } else {
        forall i: nat | 0 < i && i + |p| <= |s|
          ensures OccursAt(s, p, i) ==> OccursAt(s[1..], p, i - 1)
        {
          TailSlice(s, i - 1, |p|);
        }
      }
    }
  }

  /** SQL `column LIKE '%p%'` with `LIKE` read as a plain substring test: a NULL
      column never matches. */
  predicate Like(column: Option<string>, p: string)
    ensures Like(column, p) <==> column.Some? && exists i: nat :: OccursAt(column.value, p, i)
  {
    if column.None? then false
    else
      ContainsIff(column.value, p);
      Contains(column.value, p)
  }
}
