/** The selection loop of resolve_contract_instancetype in cnprocci/cncontract.c. */
module InstanceChoice {
  import opened Basics
  import opened CText

  /** A size of 0 is one that is not given. */
  datatype Sizes = Sizes(cores: int, speed: int, memory: int, storage: int)

  /** One listed instance type; missing attributes are already replaced by the values the loop gives them. */
  datatype Entry = Entry(id: Option<string>, sizes: Sizes, provider: string, region: string, architecture: string)

  /** What is asked for; `attribute` is the architecture of the compute resource, if it has one. */
  datatype Request = Request(sizes: Sizes, provider: string, region: string, attribute: Option<string>)

  const EITHER := "32 Bit / 64 Bit"

  // The architecture asked for, from the attribute of the compute resource.
  function Architecture(attribute: Option<string>): string {
    if attribute.None? then EITHER
    else if SameIgnoringCase(attribute.value, "x86") || SameIgnoringCase(attribute.value, "txt86") then EITHER
    else if SameIgnoringCase(attribute.value, "x86_32") || SameIgnoringCase(attribute.value, "txt86_32") then "32 Bit"
    else if SameIgnoringCase(attribute.value, "x86_64") || SameIgnoringCase(attribute.value, "txt86_64") then "64 Bit"
    else EITHER
  }

  /** The names of the attribute that ask for one width, in any case; everything else leaves it open. */
  lemma ArchitectureExact(s: string)
    ensures s in ["x86_32", "X86_32", "txt86_32", "TXT86_32"] ==> Architecture(Some(s)) == "32 Bit"
    ensures s in ["x86_64", "X86_64", "txt86_64", "TXT86_64"] ==> Architecture(Some(s)) == "64 Bit"
    ensures |s| != 6 && |s| != 8 ==> Architecture(Some(s)) == EITHER
    ensures Architecture(None) == EITHER
  {
    if s in ["x86_32", "X86_32", "txt86_32", "TXT86_32"] {
      Width32(s);
    }
    if s in ["x86_64", "X86_64", "txt86_64", "TXT86_64"] {
      Width64(s);
    }
  }

  lemma Width32(s: string)
    requires s in ["x86_32", "X86_32", "txt86_32", "TXT86_32"]
    ensures Architecture(Some(s)) == "32 Bit"
  {
  }

  lemma Width64(s: string)
    requires s in ["x86_64", "X86_64", "txt86_64", "TXT86_64"]
    ensures Architecture(Some(s)) == "64 Bit"
  {
    assert |s| == 6 ==> s[4] == '6' && "x86_32"[4] == '3' && Lower('6') != Lower('3');
    assert |s| == 8 ==> s[6] == '6' && "txt86_32"[6] == '3';
  }

  // strncasecmp over the length of its first argument
  predicate BeginsIgnoringCase(s: string, prefix: string) {
    |prefix| <= |s| && SameIgnoringCase(prefix, s[..|prefix|])
  }

  lemma BeginsExact(s: string, prefix: string)
    ensures BeginsIgnoringCase(s, prefix) <==> exists x, y :: s == x + y && SameIgnoringCase(prefix, x)
  {
    hide SameIgnoringCase;
    if BeginsIgnoringCase(s, prefix) {
      assert s == s[..|prefix|] + s[|prefix|..];
    }
    if x, y :| s == x + y && SameIgnoringCase(prefix, x) {
      assert |x| == |prefix| by { SameLength(prefix, x); }
      assert s[..|prefix|] == x;
    }
  }

  lemma SameLength(s: string, t: string)
    requires SameIgnoringCase(s, t)
    ensures |s| == |t|
  {
  }

  // ----- what a choice should be

  // At least as large as asked for, where both are given.
  predicate Enough(asked: int, offered: int) { asked != 0 && offered != 0 ==> asked <= offered }

  predicate AllEnough(asked: Sizes, offered: Sizes) {
    && Enough(asked.cores, offered.cores) && Enough(asked.speed, offered.speed)
    && Enough(asked.memory, offered.memory) && Enough(asked.storage, offered.storage)
  }

  predicate Feasible(r: Request, e: Entry) {
    && e.id.Some?
    && AllEnough(r.sizes, e.sizes)
    && SameIgnoringCase(r.provider, e.provider) && SameIgnoringCase(r.region, e.region)
    && (SameIgnoringCase(Architecture(r.attribute), EITHER)
        || BeginsIgnoringCase(e.architecture, Architecture(r.attribute)))
  }

  predicate NoLarger(a: Sizes, b: Sizes) {
    a.cores <= b.cores && a.speed <= b.speed && a.memory <= b.memory && a.storage <= b.storage
  }

  // ----- what the loop chooses

  // The entry is not larger than the best one in a size that both give.
  predicate Replaces(e: Sizes, best: Sizes) { AllEnough(e, best) }

  // The position of the best entry among the first n; the first feasible one meets sizes that are all 0.
  function Pick(r: Request, list: seq<Entry>, n: nat): (k: Option<nat>)
    requires n <= |list|
    ensures k.Some? ==> k.value < n && Feasible(r, list[k.value])
  {
    if n == 0 then None
    else
      var best, e := Pick(r, list, n - 1), list[n - 1];
      if Feasible(r, e) && (best.Some? ==> Replaces(e.sizes, list[best.value].sizes)) then Some(n - 1) else best
  }

  /** The selection loop, with the fields of best overwritten one by one. */
  method Resolve(r: Request, root: Option<seq<Entry>>) returns (id: Option<string>)
    ensures id == if root.None? || Pick(r, root.value, |root.value|).None? then None
                  else root.value[Pick(r, root.value, |root.value|).value].id
  {
    hide SameIgnoringCase, Architecture;
    if root.None? { return None; }
    var architecture := Architecture(r.attribute);
    var list := root.value;
    var cores, speed, memory, storage := 0, 0, 0, 0;
    id := None;
    for i := 0 to |list|
      invariant id == if Pick(r, list, i).None? then None else list[Pick(r, list, i).value].id
      invariant Sizes(cores, speed, memory, storage) ==
                if Pick(r, list, i).None? then Sizes(0, 0, 0, 0) else list[Pick(r, list, i).value].sizes
    {
      var e := list[i];
      if e.id.None? { continue; }
      var s := e.sizes;
      if !SameIgnoringCase(architecture, EITHER) && !BeginsIgnoringCase(e.architecture, architecture) { continue; }
      if r.sizes.storage != 0 && s.storage != 0 && s.storage < r.sizes.storage { continue; }
      if r.sizes.memory != 0 && s.memory != 0 && s.memory < r.sizes.memory { continue; }
      if r.sizes.cores != 0 && s.cores != 0 && s.cores < r.sizes.cores { continue; }
      if r.sizes.speed != 0 && s.speed != 0 && s.speed < r.sizes.speed { continue; }
      if !SameIgnoringCase(r.provider, e.provider) { continue; }
      if !SameIgnoringCase(r.region, e.region) { continue; }
      if cores != 0 && s.cores != 0 && cores < s.cores { continue; }
      if speed != 0 && s.speed != 0 && speed < s.speed { continue; }
      if memory != 0 && s.memory != 0 && memory < s.memory { continue; }
      if storage != 0 && s.storage != 0 && storage < s.storage { continue; }
      cores := s.cores;
      speed := s.speed;
      memory := s.memory;
      storage := s.storage;
      id := e.id;
    }
  }

  // ----- what the choice is

  /** Something is chosen exactly when something feasible is listed. */
  lemma {:induction false} ChosenExact(r: Request, list: seq<Entry>, n: nat)
    requires n <= |list|
    ensures Pick(r, list, n).Some? <==> exists i :: 0 <= i < n && Feasible(r, list[i])
    decreases n
  {
    hide Feasible, Replaces;
    if n > 0 {
      ChosenExact(r, list, n - 1);
      if Feasible(r, list[n - 1]) {
        assert 0 <= n - 1 < n && Feasible(r, list[n - 1]);
      }
    }
  }
}
