/** Batch inversion: one field inversion for a whole list, by a tree of products. */
module ParallelInversion {
  import opened Fields

  /** b / (ab) == 1/a and a / (ab) == 1/b */
  lemma InverseOfPair<F(!new)>(f: Field<F>, a: F, b: F)
    requires IsField(f) && f.times(a, b) != f.zero
    ensures f.times(b, f.inv(f.times(a, b))) == f.inv(a)
    ensures f.times(a, f.inv(f.times(a, b))) == f.inv(b)
  {
    hide IsField;
    var p := f.times(a, b);
    InverseOf(f, p);
    TimesAssoc(f, a, b, f.inv(p));
    InverseUnique(f, a, f.times(b, f.inv(p)));
    TimesComm(f, a, b);
    TimesAssoc(f, b, a, f.inv(p));
    InverseUnique(f, b, f.times(a, f.inv(p)));
  }

  /** Every element becomes its own inverse; zeros, odd lengths and empty lists included. */
  method ParallelInvert<F(!new, ==)>(f: Field<F>, a: array<F>)
    requires IsField(f)
    modifies a
    ensures forall i :: 0 <= i < a.Length ==> a[i] == f.inv(old(a[i]))
    decreases a.Length
  {
    hide IsField;
    var n := a.Length;
    if n == 1 {
      a[0] := f.inv(a[0]);
    } else if n > 1 {
      var vec := Products(f, a);
      ParallelInvert(f, vec);
      var i := 0;
      while i < n / 2
        invariant 0 <= i <= n / 2
        invariant forall k :: 0 <= k < 2 * i ==> a[k] == f.inv(old(a[k]))
        invariant forall k :: 2 * i <= k < n ==> a[k] == old(a[k])
        modifies a
      {
        if vec[i] == f.zero {
          a[2 * i] := f.inv(a[2 * i]);
          a[2 * i + 1] := f.inv(a[2 * i + 1]);
        } else {
          InverseZero(f, f.times(a[2 * i], a[2 * i + 1]));
          InverseOfPair(f, a[2 * i], a[2 * i + 1]);
          a[2 * i], a[2 * i + 1] := a[2 * i + 1], a[2 * i];
          a[2 * i] := f.times(a[2 * i], vec[i]);
          a[2 * i + 1] := f.times(a[2 * i + 1], vec[i]);
        }
        i := i + 1;
      }
      if n % 2 == 1 {
        a[n - 1] := vec[n / 2];
      }
    }
  }

  /** The products of neighbours, with a last unpaired element taken over. */
  method Products<F(!new)>(f: Field<F>, a: array<F>) returns (vec: array<F>)
    requires a.Length > 1
    ensures fresh(vec) && vec.Length == (a.Length + 1) / 2
    ensures forall i :: 0 <= i < a.Length / 2 ==> vec[i] == f.times(a[2 * i], a[2 * i + 1])
    ensures a.Length % 2 == 1 ==> vec[a.Length / 2] == a[a.Length - 1]
  {
    var n := a.Length;
    vec := new F[(n + 1) / 2](_ => f.zero);
    var i := 0;
    while i < n / 2
      invariant 0 <= i <= n / 2
      invariant forall k :: 0 <= k < i ==> vec[k] == f.times(a[2 * k], a[2 * k + 1])
    {
      vec[i] := f.times(a[2 * i], a[2 * i + 1]);
      i := i + 1;
    }
    if n % 2 == 1 {
      vec[n / 2] := a[n - 1];
    }
  }
}
