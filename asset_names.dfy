/** The name under which `SaveModelUV` stores the mesh asset. Unity names a
    mesh instance after its asset with the 9-character suffix " Instance";
    the name is cut back by those 9 characters. */
module AssetNames {

  /** The suffix Unity appends to the name of an instantiated mesh. */
  const InstanceSuffix: string := " Instance"

  /** `name.Remove(name.Length - 9)` when `name.Length - 9 > 0`, else `name`. */
  function TrimmedName(name: string): (r: string)
    ensures |name| > 9 ==> |r| == |name| - 9
    ensures |name| <= 9 ==> r == name
    ensures r <= name
  {
    if |name| - 9 > 0 then name[..|name| - 9] else name
  }

  /** Trimming undoes Unity's instance suffix on every nonempty asset name. */
  lemma TrimmedInstance(asset: string)
    requires asset != []
    ensures TrimmedName(asset + InstanceSuffix) == asset
  {
    TrimmedAnyTail(asset, InstanceSuffix);
  }

  /** An empty asset name is not restored: the suffix alone is 9
      characters long and is kept as it is. */
  lemma TrimmedBareSuffix()
    ensures TrimmedName(InstanceSuffix) == InstanceSuffix != []
  {
  }

  /** Trimming cuts whatever the last 9 characters are, so a name longer
      than 9 characters without the suffix also loses its end. */
  lemma TrimmedAnyTail(stem: string, tail: string)
    requires stem != [] && |tail| == 9
    ensures TrimmedName(stem + tail) == stem
  {
    assert (stem + tail)[..|stem|] == stem;
  }
}
