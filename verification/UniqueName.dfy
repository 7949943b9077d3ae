/** The search for a file name not in use, as STOU makes it. */
module UniqueName {
  import Decimal

  /** Number of values of an `unsigned int` suffix. */
  const SUFFIXES: nat := 0x1_0000_0000

  function Name(base: string, suffix: nat): string {
    base + "." + Decimal.Print(suffix)
  }

  /** The suffix of the `i`-th probe: 1, 2, ... and 0 after the largest. */
  function SuffixAt(i: nat): nat { (1 + i) % SUFFIXES }

  /** A name is the base, a dot and the suffix in decimal. */
  lemma NameLaw(base: string, suffix: nat)
    ensures base < Name(base, suffix) && Name(base, suffix)[|base|] == '.'
    ensures Decimal.Value(Name(base, suffix)[|base| + 1..], 0) == suffix
    ensures Name(base, 1) == base + ".1"
  {
    var digits := Decimal.Print(suffix);
    assert Name(base, suffix)[|base| + 1..] == digits + [];
    Decimal.ValueOfPrinted(suffix, []);
    assert base + "." + "1" == base + ".1" && Decimal.Print(1) == "1";
  }

  /** The suffixes tried: 1 and up to the largest `unsigned int`, and then 0. */
  lemma ProbeOrder(i: nat)
    ensures i < 0xffff_ffff ==> SuffixAt(i) == i + 1
    ensures SuffixAt(0xffff_ffff) == 0
  {
  }

  lemma NameInjective(base: string, m: nat, n: nat)
    ensures Name(base, m) == Name(base, n) ==> m == n
    ensures Name(base, m) != base
  {
    var skip := |base| + 1;
    assert |Name(base, m)| >= skip;
    if Name(base, m) == Name(base, n) {
      assert Name(base, m)[skip..] == Decimal.Print(m) && Name(base, n)[skip..] == Decimal.Print(n);
      Decimal.PrintInjective(m, n);
    }
  }

  /** The names of the first `n` probes. */
  ghost function Probed(base: string, n: nat): set<string> {
    if n == 0 then {} else Probed(base, n - 1) + {Name(base, SuffixAt(n - 1))}
  }

  lemma {:induction false} ProbedIndex(base: string, n: nat, s: string) returns (i: nat)
    requires s in Probed(base, n)
    ensures i < n && s == Name(base, SuffixAt(i))
  {
    hide Name, SuffixAt;
    if s == Name(base, SuffixAt(n - 1)) { i := n - 1; } else { i := ProbedIndex(base, n - 1, s); }
  }

  /** The first probe, and how the next follows from one. */
  lemma SuffixStep(i: nat)
    ensures SuffixAt(0) == 1
    ensures SuffixAt(i + 1) == (SuffixAt(i) + 1) % SUFFIXES
  {
  }

  lemma SuffixesDiffer(i: nat, j: nat)
    requires i < j < SUFFIXES
    ensures SuffixAt(i) != SuffixAt(j)
  {
  }

  /** The probes are all different, and none is the base. */
  lemma {:induction false} ProbedSize(base: string, n: nat)
    requires n <= SUFFIXES
    ensures |Probed(base, n)| == n && base !in Probed(base, n)
  {
    hide Name, SuffixAt;
    if n > 0 {
      ProbedSize(base, n - 1);
      var s := Name(base, SuffixAt(n - 1));
      NameInjective(base, SuffixAt(n - 1), 0);
      if s in Probed(base, n - 1) {
        var i := ProbedIndex(base, n - 1, s);
        NameInjective(base, SuffixAt(i), SuffixAt(n - 1));
        SuffixesDiffer(i, n - 1);
        assert false;
      }
    }
  }

  /** Pigeonhole: not more names than suffixes, the base among them, leave some suffix free. */
  lemma SomeSuffixFree(base: string, names: set<string>)
    requires base in names && |names| <= SUFFIXES
    ensures exists i :: 0 <= i < |names| && Name(base, SuffixAt(i)) !in names
  {
    hide Name;
    ProbedSize(base, |names|);
    if Probed(base, |names|) + {base} <= names {
      Subset(Probed(base, |names|) + {base}, names);
      assert false;
    }
    var s :| s in Probed(base, |names|) && s !in names;
    var i := ProbedIndex(base, |names|, s);
  }

  lemma Subset<T>(a: set<T>, b: set<T>)
    requires a <= b
    ensures |a| <= |b|
  {
    assert b == a + (b - a);
  }

  /**
   * `names` are the paths for which `stat` succeeds. The search ends exactly when some suffix is
   * free, and then with the first free name in the order of the probes.
   */
  method GetUniqueFilename(base: string, names: set<string>) returns (dest: string, ghost probes: nat)
    requires base in names ==> exists i :: 0 <= i < SUFFIXES && Name(base, SuffixAt(i)) !in names
    ensures dest !in names
    ensures base !in names ==> dest == base
    ensures base in names ==> probes < SUFFIXES && dest == Name(base, SuffixAt(probes))
    ensures base in names ==> forall i :: 0 <= i < probes ==> Name(base, SuffixAt(i)) in names
    ensures base in names && |names| <= SUFFIXES ==> probes < |names|
    ensures base in names && base + ".1" !in names ==> dest == base + ".1"
  {
    hide Name, SuffixAt;
    probes := 0;
    SuffixStep(0);
    NameLaw(base, 1);
    if base !in names { return base, 0; }
    var suffix := 1;
    ghost var free :| 0 <= free < SUFFIXES && Name(base, SuffixAt(free)) !in names;
    while true
      invariant probes <= free && suffix == SuffixAt(probes)
      invariant forall i :: 0 <= i < probes ==> Name(base, SuffixAt(i)) in names
      decreases free - probes
    {
      dest := Name(base, suffix);
      if dest !in names {
        if |names| <= SUFFIXES { SomeSuffixFree(base, names); }
        return;
      }
      SuffixStep(probes);
      suffix := (suffix + 1) % SUFFIXES;
      probes := probes + 1;
    }
  }
}
