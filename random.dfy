/**
 * The random source, injected. Every call of rand.Intn(n) or rand.Float64()
 * in the modelled code is answered by an oracle that is only known to keep
 * its range precondition; a call is identified by the site that makes it
 * (which tree, which node) and by which of that site's draws it is.
 */
module Random {

  /** A drawing site: the index of a tree in the forest and the path (true = left) from its root. */
  datatype Site = Site(tree: nat, path: seq<bool>) {
    function Child(left: bool): Site { Site(tree, path + [left]) }
  }

  /** `intn(site, k, n)` answers the site's k-th call rand.Intn(n); `float64(site)` its rand.Float64(). */
  datatype Source = Source(intn: (Site, nat, nat) -> nat, float64: Site -> real)

  /** The oracle keeps rand.Intn's range [0, n) and rand.Float64's range [0, 1). */
  ghost predicate Valid(src: Source) {
    && (forall s, k, n :: 0 < n ==> src.intn(s, k, n) < n)
    && (forall s :: 0.0 <= src.float64(s) < 1.0)
  }
}
