/** Couchbase resource names and the byte-wise order in which siblings are kept. */
module Names {

  /** Strict lexical order of two names. */
  predicate Less(a: string, b: string)
  {
    b != [] && (a == [] || a[0] < b[0] || (a[0] == b[0] && Less(a[1..], b[1..])))
  }

  /** One name comes before another exactly if it is a proper beginning of it, or has the smaller character where they
      first differ. */
  lemma {:induction false} LessExactly(a: string, b: string)
    ensures Less(a, b) <==> a < b || exists k: nat :: DifferAt(a, b, k) && a[k] < b[k]
  {
    if a != [] && b != [] {
      assert a == [a[0]] + a[1..] && b == [b[0]] + b[1..];
      if a[0] == b[0] {
        LessExactly(a[1..], b[1..]);
        assert a < b <==> a[1..] < b[1..];
        forall k: nat | k < |a[1..]| ensures DifferAt(a[1..], b[1..], k) <==> DifferAt(a, b, k + 1) {
          if k < |b[1..]| {
            assert a[..k + 1] == [a[0]] + a[1..][..k] && b[..k + 1] == [b[0]] + b[1..][..k];
          }
        }
        if k: nat :| DifferAt(a, b, k) && a[k] < b[k] {
          assert DifferAt(a[1..], b[1..], k - 1);
        }
        if k: nat :| DifferAt(a[1..], b[1..], k) && a[1..][k] < b[1..][k] {
          assert DifferAt(a, b, k + 1);
        }
      } else {
        assert DifferAt(a, b, 0);
        forall k: nat | DifferAt(a, b, k) ensures k == 0 {
          DifferFrom(a, b, k);
        }
      }
    }
  }

  lemma DifferFrom(a: string, b: string, k: nat)
    requires DifferAt(a, b, k)
    ensures k > 0 ==> a[0] == b[0]
  {
    if k > 0 {
      assert a[0] == a[..k][0] && b[0] == b[..k][0];
    }
  }

  predicate DifferAt(a: string, b: string, k: nat)
  {
    k < |a| && k < |b| && a[..k] == b[..k] && a[k] != b[k]
  }

  /** The three-way comparison on which the tree merge switches. */
  function Compare(a: string, b: string): (r: int)
  {
    if a == b then 0 else if Less(a, b) then -1 else 1
  }

  lemma {:induction false} LessIrreflexive(a: string)
    ensures !Less(a, a)
  {
    if a != [] {
      LessIrreflexive(a[1..]);
    }
  }

  lemma {:induction false} LessTransitive(a: string, b: string, c: string)
    requires Less(a, b) && Less(b, c)
    ensures Less(a, c)
  {
    if a != [] && a[0] == b[0] == c[0] {
      LessTransitive(a[1..], b[1..], c[1..]);
    }
  }

  lemma {:induction false} LessTotal(a: string, b: string)
    ensures a == b || Less(a, b) || Less(b, a)
  {
    if a != [] && b != [] {
      LessTotal(a[1..], b[1..]);
      if a[1..] == b[1..] && a[0] == b[0] {
        assert a == [a[0]] + a[1..] == b;
      }
    }
  }

  /** The comparison is a three-way choice: exactly one of equal, before, after. */
  lemma CompareTrichotomy(a: string, b: string)
    ensures Compare(a, b) == 0 <==> a == b
    ensures Compare(a, b) == -1 <==> Less(a, b)
    ensures Compare(a, b) == 1 <==> Less(b, a)
    ensures Compare(b, a) == -Compare(a, b)
  {
    LessIrreflexive(a);
    LessTotal(a, b);
    if Less(a, b) && Less(b, a) {
      LessTransitive(a, b, a);
    }
  }

  /** Names joined with a separator, as a group resource is labelled. */
  function Join(names: seq<string>, separator: string): string
  {
    if names == [] then ""
    else if |names| == 1 then names[0]
    else names[0] + separator + Join(names[1..], separator)
  }
}
