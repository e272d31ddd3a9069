/** The manifest store: what `get_manifest` and `save_manifest` do to the state file. */
module Store {
  import opened Manifests

  /** The state file as the loader finds it. */
  datatype StateFile = Absent | Corrupt | Stored(manifest: Manifest)

  /** Loading tolerates a missing or unparsable file by starting from an empty manifest. */
  function Load(f: StateFile): (m: Manifest)
    ensures f.Stored? ==> m == f.manifest
    ensures !f.Stored? ==> m.units == []
  {
    match f
    case Stored(stored) => stored
    case _ => Manifest([])
  }

  /** Saving writes the whole manifest; loading it back gives the same manifest. */
  function Save(m: Manifest): (f: StateFile)
    ensures Load(f) == m
  {
    Stored(m)
  }
}
