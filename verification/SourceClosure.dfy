/**
 The bounded source closure (scripts/release-evidence.ts, collectProductSources): a worklist over a product's
 imports, cyclic ones included, with caps on files, imports and bytes.
 */
module SourceClosure {
  import opened Wrappers
  import opened UnicodeText
  import Sorting

  type File = Text

  const MAX_FILES := 1024
  const MAX_IMPORTS := 8192
  const MAX_BYTES := 8_388_608

  /** One import of a source, as resolution classifies it. */
  datatype Import = Builtin | Internal(file: File) | Dependency | Refused

  /**
   A checkout. A file has no size when its path is unsafe or it cannot be read within the per-file limit, and
   no imports when they cannot be enumerated; a file that is not source has none to enumerate. The package.json
   metadata is missing when the namespace may not be inspected.
   */
  datatype Project = Project(size: File -> Option<nat>, imports: File -> Option<seq<Import>>, metadata: Option<seq<File>>)

  // Reachability.

  ghost predicate Imports(p: Project, f: File, g: File) {
    p.imports(f).Some? && Internal(g) in p.imports(f).value
  }

  ghost predicate IsPath(p: Project, roots: seq<File>, path: seq<File>) {
    && path != [] && path[0] in roots
    && forall i :: 0 <= i < |path| - 1 ==> Imports(p, path[i], path[i + 1])
  }

  ghost predicate Reachable(p: Project, roots: seq<File>, f: File) {
    exists path :: IsPath(p, roots, path) && path[|path| - 1] == f
  }

  lemma RootReachable(p: Project, roots: seq<File>, f: File)
    requires f in roots
    ensures Reachable(p, roots, f)
  {
    assert IsPath(p, roots, [f]) && [f][|[f]| - 1] == f;
  }

  lemma ImportReachable(p: Project, roots: seq<File>, f: File, g: File)
    requires Reachable(p, roots, f) && Imports(p, f, g)
    ensures Reachable(p, roots, g)
  {
    var path :| IsPath(p, roots, path) && path[|path| - 1] == f;
    var longer := path + [g];
    forall i | 0 <= i < |longer| - 1 ensures Imports(p, longer[i], longer[i + 1]) {
      assert longer[i] == path[i];
      assert i < |path| - 1 ==> longer[i + 1] == path[i + 1];
    }
    assert IsPath(p, roots, longer) && longer[|longer| - 1] == g;
  }

  /** A set that holds the roots and is closed under imports holds everything reachable. */
  lemma {:induction false} ClosedHolds(p: Project, roots: seq<File>, bound: seq<File>, path: seq<File>)
    requires forall r :: r in roots ==> r in bound
    requires forall f, g :: f in bound && Imports(p, f, g) ==> g in bound
    requires IsPath(p, roots, path)
    ensures path[|path| - 1] in bound
    decreases |path|
  {
    if |path| > 1 {
      ClosedHolds(p, roots, bound, path[..|path| - 1]);
      assert Imports(p, path[|path| - 2], path[|path| - 2 + 1]);
    }
  }

  // Weighing.

  ghost function Weigh(weight: File -> nat, s: seq<File>): nat {
    if s == [] then 0 else Weigh(weight, s[..|s| - 1]) + weight(s[|s| - 1])
  }

  lemma WeighPush(weight: File -> nat, s: seq<File>, f: File)
    ensures Weigh(weight, s + [f]) == Weigh(weight, s) + weight(f)
  {
    assert (s + [f])[..|s|] == s;
  }

  lemma {:induction false} WeighWithout(weight: File -> nat, s: seq<File>, i: nat)
    requires i < |s|
    ensures Weigh(weight, s) == Weigh(weight, s[..i] + s[i + 1..]) + weight(s[i])
  {
    var front := s[..|s| - 1];
    if i < |front| {
      WeighWithout(weight, front, i);
      assert s[..i] + s[i + 1..] == (front[..i] + front[i + 1..]) + [s[|s| - 1]];
      WeighPush(weight, front[..i] + front[i + 1..], s[|s| - 1]);
    } else {
      assert s[..i] + s[i + 1..] == front;
    }
  }

  /** Distinct files among others weigh no more than those, and are no more. */
  lemma {:induction false} SubWeight(weight: File -> nat, s: seq<File>, t: seq<File>)
    requires Sorting.Distinct(s) && forall f :: f in s ==> f in t
    ensures Weigh(weight, s) <= Weigh(weight, t) && |s| <= |t|
    decreases |s|
  {
    if s != [] {
      var front, last := s[..|s| - 1], s[|s| - 1];
      assert last in t;
      var i :| 0 <= i < |t| && t[i] == last;
      var rest := t[..i] + t[i + 1..];
      WeighWithout(weight, t, i);
      forall f | f in front ensures f in rest {
        var j :| 0 <= j < |front| && front[j] == f;
        assert s[j] != s[|s| - 1] && s[j] in t;
        var k :| 0 <= k < |t| && t[k] == f;
        assert if k < i then rest[k] == f else rest[k - 1] == f;
      }
      SubWeight(weight, front, rest);
    }
  }

  ghost function CountImports(imports: seq<Import>): nat {
    if imports == [] then 0
    else CountImports(imports[..|imports| - 1]) + (if imports[|imports| - 1].Builtin? then 0 else 1)
  }

  lemma {:induction false} CountFront(imports: seq<Import>, k: nat)
    requires k <= |imports|
    ensures CountImports(imports[..k]) <= CountImports(imports)
    ensures k < |imports| && !imports[k].Builtin? ==> CountImports(imports[..k]) < CountImports(imports)
  {
    if k < |imports| {
      CountFront(imports[..|imports| - 1], if k < |imports| - 1 then k else |imports| - 1);
      assert k < |imports| - 1 ==> imports[..|imports| - 1][..k] == imports[..k] && imports[..|imports| - 1][k] == imports[k];
    } else {
      assert imports[..k] == imports;
    }
  }

  ghost function Bytes(p: Project, f: File): nat {
    if p.size(f).Some? then p.size(f).value else 0
  }

  ghost function Resolutions(p: Project, f: File): nat {
    if p.imports(f).Some? then CountImports(p.imports(f).value) else 0
  }

  ghost function SizeOf(p: Project): File -> nat {
    (f: File) => Bytes(p, f)
  }

  ghost function ImportsOf(p: Project): File -> nat {
    (f: File) => Resolutions(p, f)
  }

  // When the closure must be refused.

  ghost predicate BadSource(p: Project, f: File) {
    p.size(f).None? || p.imports(f).None? || Refused in p.imports(f).value
  }

  ghost predicate Belongs(p: Project, roots: seq<File>, f: File) {
    Reachable(p, roots, f) || (p.metadata.Some? && f in p.metadata.value)
  }

  ghost predicate TooMuch(p: Project, roots: seq<File>, s: seq<File>) {
    && Sorting.Distinct(s) && (forall f :: f in s ==> Belongs(p, roots, f))
    && (|s| > MAX_FILES || Weigh(SizeOf(p), s) > MAX_BYTES)
  }

  ghost predicate TooManyImports(p: Project, roots: seq<File>, s: seq<File>) {
    && Sorting.Distinct(s) && (forall f :: f in s ==> Reachable(p, roots, f))
    && Weigh(ImportsOf(p), s) > MAX_IMPORTS
  }

  ghost predicate Fault(p: Project, roots: seq<File>) {
    || |roots| < 1 || |roots| > MAX_FILES
    || (exists f :: Reachable(p, roots, f) && BadSource(p, f))
    || p.metadata.None? || (exists f :: f in p.metadata.value && p.size(f).None?)
    || (exists s :: TooMuch(p, roots, s))
    || (exists s :: TooManyImports(p, roots, s))
  }

  // The worklist.

  /** The files bound so far are sound, within the caps, and their imports are bound or pending. */
  ghost predicate Frontier(p: Project, roots: seq<File>, bound: seq<File>, pending: seq<File>) {
    && Sorting.Distinct(bound)
    && (forall f :: f in bound ==> Reachable(p, roots, f) && !BadSource(p, f))
    && (forall f :: f in pending ==> Reachable(p, roots, f))
    && (forall f :: f in roots ==> f in bound || f in pending)
    && (forall f, g :: f in bound && Imports(p, f, g) ==> g in bound || g in pending)
  }

  ghost predicate WithinCaps(p: Project, bound: seq<File>, total: nat) {
    && |bound| <= MAX_FILES
    && total == Weigh(SizeOf(p), bound) <= MAX_BYTES
  }

  /** bindFile: one more file, or none when it is unreadable or a cap is reached. */
  method BindFile(p: Project, bound: seq<File>, total: nat, f: File) returns (r: Option<(seq<File>, nat)>)
    requires WithinCaps(p, bound, total) && Sorting.Distinct(bound) && f !in bound
    ensures r.Some? ==> r.value.0 == bound + [f] && Sorting.Distinct(r.value.0) && WithinCaps(p, r.value.0, r.value.1) && p.size(f).Some?
    ensures r.None? ==>
              p.size(f).None? ||
              (Sorting.Distinct(bound + [f]) && (|bound + [f]| > MAX_FILES || Weigh(SizeOf(p), bound + [f]) > MAX_BYTES))
  {
    WeighPush(SizeOf(p), bound, f);
    if |bound| >= MAX_FILES {
      return None;
    }
    match p.size(f) {
      case None => return None;
      case Some(bytes) =>
        if total + bytes > MAX_BYTES {
          return None;
        }
        return Some((bound + [f], total + bytes));
    }
  }

  /** The import loop of one file: what it leaves pending, or None when an import is refused or one too many. */
  method ScanImports(imports: seq<Import>, pending0: seq<File>, resolutions0: nat) returns (r: Option<(seq<File>, nat)>)
    requires resolutions0 <= MAX_IMPORTS
    ensures r.Some? ==> Refused !in imports
    ensures r.Some? ==> r.value.1 == resolutions0 + CountImports(imports) <= MAX_IMPORTS
    ensures r.Some? ==> forall g :: g in r.value.0 <==> g in pending0 || Internal(g) in imports
    ensures r.None? ==> Refused in imports || resolutions0 + CountImports(imports) > MAX_IMPORTS
  {
    var pending, resolutions := pending0, resolutions0;
    for k := 0 to |imports|
      invariant Refused !in imports[..k]
      invariant resolutions == resolutions0 + CountImports(imports[..k]) <= MAX_IMPORTS
      invariant forall g :: g in pending <==> g in pending0 || Internal(g) in imports[..k]
    {
      CountFront(imports, k);
      assert imports[..k + 1] == imports[..k] + [imports[k]];
      assert imports[..k + 1][..k] == imports[..k];
      if imports[k].Builtin? {
        continue;
      }
      if resolutions >= MAX_IMPORTS {
        return None;
      }
      if imports[k].Refused? {
        return None;
      }
      if imports[k].Internal? {
        pending := pending + [imports[k].file];
      }
      resolutions := resolutions + 1;
    }
    assert imports[..|imports|] == imports;
    return Some((pending, resolutions));
  }

  /** Success is exactly the absence of a fault, and then the bound files are exactly those that belong. */
  method CollectProductSources(p: Project, roots: seq<File>) returns (r: Option<seq<File>>)
    ensures r.None? <==> Fault(p, roots)
    ensures r.Some? ==> Sorting.Distinct(r.value) && forall f :: f in r.value <==> Belongs(p, roots, f)
    ensures r.Some? ==> |r.value| <= MAX_FILES && Weigh(SizeOf(p), r.value) <= MAX_BYTES
  {
    if |roots| < 1 || |roots| > MAX_FILES {
      return None;
    }
    var pending := roots;
    var bound: seq<File> := [];
    var total, resolutions := 0, 0;
    forall f | f in roots ensures Reachable(p, roots, f) {
      RootReachable(p, roots, f);
    }
    while pending != []
      invariant Frontier(p, roots, bound, pending) && WithinCaps(p, bound, total)
      invariant resolutions == Weigh(ImportsOf(p), bound) <= MAX_IMPORTS
      decreases MAX_FILES - |bound|, |pending|
    {
      var f := pending[|pending| - 1];
      ghost var before := pending;
      pending := pending[..|pending| - 1];
      if f in bound {
        PopBound(p, roots, bound, before);
        continue;
      }
      var grown := BindFile(p, bound, total, f);
      if grown.None? {
        RefusedFile(p, roots, bound, before, f);
        return None;
      }
      var imports := p.imports(f);
      if imports.None? {
        assert Reachable(p, roots, f) && BadSource(p, f);
        return None;
      }
      WeighPush(ImportsOf(p), bound, f);
      var scanned := ScanImports(imports.value, pending, resolutions);
      if scanned.None? {
        RefusedImports(p, roots, bound, before, f);
        return None;
      }
      BindKeepsFrontier(p, roots, bound, before, f, scanned.value.0);
      pending, resolutions := scanned.value.0, scanned.value.1;
      bound, total := grown.value.0, grown.value.1;
    }
    r := BindMetadata(p, roots, bound, total);
  }

  method BindMetadata(p: Project, roots: seq<File>, reached: seq<File>, total0: nat) returns (r: Option<seq<File>>)
    requires 1 <= |roots| <= MAX_FILES
    requires Frontier(p, roots, reached, []) && WithinCaps(p, reached, total0) && Weigh(ImportsOf(p), reached) <= MAX_IMPORTS
    ensures r.None? <==> Fault(p, roots)
    ensures r.Some? ==> Sorting.Distinct(r.value) && forall f :: f in r.value <==> Belongs(p, roots, f)
    ensures r.Some? ==> |r.value| <= MAX_FILES && Weigh(SizeOf(p), r.value) <= MAX_BYTES
  {
    if p.metadata.None? {
      return None;
    }
    var metadata, bound, total := p.metadata.value, reached, total0;
    for k := 0 to |metadata|
      invariant Sorting.Distinct(bound) && WithinCaps(p, bound, total)
      invariant forall f :: f in bound <==> f in reached || f in metadata[..k]
      invariant forall f :: f in metadata[..k] ==> p.size(f).Some?
    {
      var f := metadata[k];
      assert metadata[..k + 1] == metadata[..k] + [f];
      if f in bound {
        assert f in reached ==> !BadSource(p, f);
        continue;
      }
      var grown := BindFile(p, bound, total, f);
      if grown.None? {
        if p.size(f).Some? {
          assert TooMuch(p, roots, bound + [f]);
        }
        return None;
      }
      bound, total := grown.value.0, grown.value.1;
    }
    assert metadata[..|metadata|] == metadata;
    NoFault(p, roots, reached, bound);
    return Some(bound);
  }

  lemma PopBound(p: Project, roots: seq<File>, bound: seq<File>, pending: seq<File>)
    requires Frontier(p, roots, bound, pending) && pending != [] && pending[|pending| - 1] in bound
    ensures Frontier(p, roots, bound, pending[..|pending| - 1])
  {
    var rest := pending[..|pending| - 1];
    assert pending == rest + [pending[|pending| - 1]];
  }

  lemma RefusedFile(p: Project, roots: seq<File>, bound: seq<File>, pending: seq<File>, f: File)
    requires Frontier(p, roots, bound, pending) && f in pending && f !in bound
    requires p.size(f).None? ||
             (Sorting.Distinct(bound + [f]) && (|bound + [f]| > MAX_FILES || Weigh(SizeOf(p), bound + [f]) > MAX_BYTES))
    ensures Fault(p, roots)
  {
    if p.size(f).None? {
      assert Reachable(p, roots, f) && BadSource(p, f);
    } else {
      assert TooMuch(p, roots, bound + [f]);
    }
  }

  lemma RefusedImports(p: Project, roots: seq<File>, bound: seq<File>, pending: seq<File>, f: File)
    requires Frontier(p, roots, bound, pending) && f in pending && f !in bound
    requires p.imports(f).Some?
    requires Refused in p.imports(f).value || Weigh(ImportsOf(p), bound) + CountImports(p.imports(f).value) > MAX_IMPORTS
    ensures Fault(p, roots)
  {
    if Refused in p.imports(f).value {
      assert Reachable(p, roots, f) && BadSource(p, f);
    } else {
      WeighPush(ImportsOf(p), bound, f);
      assert TooManyImports(p, roots, bound + [f]);
    }
  }

  lemma BindKeepsFrontier(p: Project, roots: seq<File>, bound: seq<File>, pending: seq<File>, f: File, pending': seq<File>)
    requires Frontier(p, roots, bound, pending) && pending != [] && f == pending[|pending| - 1] && f !in bound
    requires !BadSource(p, f)
    requires forall g :: g in pending' <==> g in pending[..|pending| - 1] || Internal(g) in p.imports(f).value
    ensures Frontier(p, roots, bound + [f], pending')
  {
    var rest := pending[..|pending| - 1];
    assert pending == rest + [f];
    forall g | g in pending' ensures Reachable(p, roots, g) {
      if g !in rest {
        ImportReachable(p, roots, f, g);
      }
    }
  }

  /** Once nothing is pending and the metadata is bound too, no fault is left. */
  lemma NoFault(p: Project, roots: seq<File>, reached: seq<File>, bound: seq<File>)
    requires 1 <= |roots| <= MAX_FILES && p.metadata.Some?
    requires Frontier(p, roots, reached, []) && Weigh(ImportsOf(p), reached) <= MAX_IMPORTS
    requires forall f :: f in bound <==> f in reached || f in p.metadata.value
    requires forall f :: f in p.metadata.value ==> p.size(f).Some?
    requires |bound| <= MAX_FILES && Weigh(SizeOf(p), bound) <= MAX_BYTES
    ensures !Fault(p, roots) && forall f :: f in bound <==> Belongs(p, roots, f)
  {
    forall f ensures Reachable(p, roots, f) ==> f in reached {
      if Reachable(p, roots, f) {
        var path :| IsPath(p, roots, path) && path[|path| - 1] == f;
        ClosedHolds(p, roots, reached, path);
      }
    }
    forall s ensures !TooMuch(p, roots, s) {
      if TooMuch(p, roots, s) {
        SubWeight(SizeOf(p), s, bound);
      }
    }
    forall s ensures !TooManyImports(p, roots, s) {
      if TooManyImports(p, roots, s) {
        SubWeight(ImportsOf(p), s, reached);
      }
    }
  }
}
