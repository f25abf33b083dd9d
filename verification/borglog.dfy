/**
 * The already-loaded contents of the JSON log `borg` writes: the
 * repository's last-modified value and the list of archives.
 */
module BorgLog {
  import opened Wrappers

  /** A value looked up in a JSON object: missing key, `null`, or a string. */
  datatype Field = Absent | Null | Text(text: string)

  /** One entry of `archives`. */
  datatype Archive = Archive(name: Field, start: Field, end: Field)

  /**
   * The parsed log. `lastModified` is `repository.last_modified` (Absent
   * when either key is missing); `archives` is None when that key is missing.
   */
  datatype Snapshot = Snapshot(lastModified: Field, archives: Option<seq<Archive>>)

  /** Python truthiness of a looked-up value: `null` and `""` are false. */
  predicate Falsy(f: Field) {
    f.Null? || f == Text("")
  }

  /** `str()` of a value that is present: `null` prints as `None`. */
  function Shown(f: Field): (s: string)
    requires !f.Absent?
    ensures f.Text? ==> s == f.text
    ensures f.Null? ==> s == "None"
  {
    match f
    case Null => "None"
    case Text(t) => t
  }

  /**
   * `list.pop()`: the last element and the list without it, or None where
   * Python raises `IndexError` on an empty list.
   */
  function Pop<T>(xs: seq<T>): (r: Option<(seq<T>, T)>)
    ensures r.None? <==> |xs| == 0
    ensures r.Some? ==> r.value.0 + [r.value.1] == xs
  {
    if |xs| == 0 then None else Some((xs[..|xs| - 1], xs[|xs| - 1]))
  }

  /** Popping takes the final element and leaves the original prefix, in order. */
  lemma PopKeepsPrefix<T>(xs: seq<T>)
    requires |xs| > 0
    ensures Pop(xs).Some?
    ensures Pop(xs).value.1 == xs[|xs| - 1]
    ensures |Pop(xs).value.0| == |xs| - 1
    ensures forall i :: 0 <= i < |xs| - 1 ==> Pop(xs).value.0[i] == xs[i]
  {
    var r := Pop(xs).value;
    assert |r.0 + [r.1]| == |xs|;
    forall i | 0 <= i < |xs| - 1
      ensures r.0[i] == xs[i]
    {
      assert (r.0 + [r.1])[i] == r.0[i];
    }
    assert (r.0 + [r.1])[|xs| - 1] == r.1;
  }
}
