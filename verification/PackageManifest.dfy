/**
 The extension's manifest as the gate and the packager read it: which paths it names, and what the finished
 ./build makes of them (`scripts/check-package-composition.js`, `scripts/copy-build.js`).
 */
module PackageManifest {
  import opened PackageTree

  /** Where the text of a value leads once `path.normalize` is done with it: out of the root, or to a place below it. */
  datatype Place = Outside | Within(path: Path)

  /** What stands where the manifest wants a path; `place` is where its text leads. */
  datatype Value = Value(isText: bool, isTruthy: bool, place: Place)

  datatype Icon = Icon(key: string, value: Value)

  /** `isTask` is whether the contribution's type is that of a task, `name` the name it gives. */
  datatype Contribution = Contribution(isTask: bool, name: Value)

  /** `Missing` is what `|| []` replaces. */
  datatype List<T> = Missing | NotAList | Listed(items: seq<T>)

  datatype Manifest = Manifest(
    details: Value, license: Value, icons: seq<Icon>, files: List<Value>, contributions: List<Contribution>)

  /** What `JSON.parse` makes of the manifest: `Falsy` is false, 0 or an empty string. */
  datatype Document = NotJson | Null | Falsy | Read(manifest: Manifest)

  function PlaceOfTruthy(v: Value): seq<Place> { if v.isTruthy then [v.place] else [] }

  function IconPlaces(icons: seq<Icon>): seq<Place> {
    if icons == [] then [] else [icons[0].value.place] + IconPlaces(icons[1..])
  }

  function FilePlaces(files: seq<Value>): seq<Place> {
    if files == [] then [] else PlaceOfTruthy(files[0]) + FilePlaces(files[1..])
  }

  /** Everything the packaged manifest promises. */
  function Promised(m: Manifest): seq<Place> {
    PlaceOfTruthy(m.details) + PlaceOfTruthy(m.license) + IconPlaces(m.icons)
    + if m.files.Listed? then FilePlaces(m.files.items) else []
  }

  /** Reading the promises throws. */
  predicate PromisesThrow(d: Document) { d.Null? || (d.Read? && d.manifest.files.NotAList?) }

  /** `fs.existsSync` in the finished ./build, which holds these files and the directories they need. */
  predicate InBuild(build: set<Path>, path: Path) { path == [] || exists p :: p in build && path <= p }

  predicate IsKept(place: Place, build: set<Path>) { place.Within? && InBuild(build, place.path) }

  /** A reading of the promises, one membership for each. */
  lemma {:induction false} IconPlaced(icons: seq<Icon>, place: Place)
    ensures place in IconPlaces(icons) <==> exists k :: 0 <= k < |icons| && icons[k].value.place == place
  {
    if icons != [] {
      IconPlaced(icons[1..], place);
      assert forall k :: 0 < k < |icons| ==> icons[k] == icons[1..][k - 1];
      assert forall k :: 0 <= k < |icons[1..]| ==> icons[1..][k] == icons[k + 1];
    }
  }

  lemma {:induction false} FilePlaced(files: seq<Value>, place: Place)
    ensures place in FilePlaces(files) <==> exists k :: 0 <= k < |files| && files[k].isTruthy && files[k].place == place
  {
    if files != [] {
      FilePlaced(files[1..], place);
      assert forall k :: 0 < k < |files| ==> files[k] == files[1..][k - 1];
      assert forall k :: 0 <= k < |files[1..]| ==> files[1..][k] == files[k + 1];
    }
  }
}
