/** The strategy selector: a short name picks one of the five strategies,
    and an unknown name falls back to the default one with a diagnostic. */
module Selector {
  import opened Common
  import opened UnionFind

  /** The name used when the requested one is unknown. */
  const DefaultAlgo: string := "wqupc"

  /** The diagnostic written for an unknown name. */
  const FallbackMessage: string := "invalid version, use default algo"

  /** The name-to-strategy table. */
  const Table: map<string, Variant> := map[
    "qf" := QuickFind,
    "qu" := QuickUnion,
    "wqu" := WeightedQuickUnion,
    "qupc" := QuickUnionPathCompression,
    "wqupc" := WeightedQuickUnionPathCompression
  ]

  /** A built instance, with the diagnostic that was reported, if any. */
  datatype Built = Built(uf: UF, diagnostic: Option<string>)

  /** `build_algorithm(N, name)`. */
  function Build(n: nat, name: string): (b: Built)
    ensures Valid(b.uf) && |b.uf.ids| == n && b.uf.cnt == n
    ensures forall i | 0 <= i < n :: b.uf.ids[i] == i
    ensures forall x: nat, y: nat | x < n && y < n :: SameClass(b.uf, x, y) <==> x == y
    ensures name in Table ==> b.uf.variant == Table[name] && b.diagnostic == None
    ensures name !in Table ==>
      b.uf.variant == WeightedQuickUnionPathCompression && b.diagnostic == Some(FallbackMessage)
  {
    if name in Table then Built(Init(Table[name], n), None)
    else Built(Init(Table[DefaultAlgo], n), Some(FallbackMessage))
  }

  /** Each short name builds the strategy whose `name()` matches it. */
  lemma NamesOfBuilt(n: nat)
    ensures Name(Build(n, "qf").uf.variant) == "quick find"
    ensures Name(Build(n, "qu").uf.variant) == "quick union"
    ensures Name(Build(n, "wqu").uf.variant) == "weighted quick union"
    ensures Name(Build(n, "qupc").uf.variant) == "quick union with path compression"
    ensures Name(Build(n, "wqupc").uf.variant) == "weighted quick union with path compression"
  {
  }

  /** An unknown name yields exactly the instance the default name yields,
      so every later sequence of operations behaves the same on both. */
  lemma FallbackIsDefault(n: nat, name: string)
    requires name !in Table
    ensures Build(n, name).uf == Build(n, DefaultAlgo).uf
    ensures Name(Build(n, name).uf.variant) == Name(Build(n, DefaultAlgo).uf.variant)
  {
  }
}
