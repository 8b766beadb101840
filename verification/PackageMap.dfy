/** Package maps: what the validator accepts, what the resolver finds, and how the two fit together. */
module PackageMap {
  import opened Options

  /** A value of a package map. An array is an object to a property lookup, but not to the shape check. */
  datatype Value = Str(text: string) | Obj(props: map<string, Value>, isArray: bool) | Other

  datatype ModuleType = Neither | EsModule | CommonJs

  /** ecma_find_own_v: nothing is found on a value that is not an object. */
  function FindOwn(v: Value, key: string): Option<Value> {
    if v.Obj? && key in v.props then Some(v.props[key]) else None
  }

  predicate IsObject(v: Value) { v.Obj? && !v.isArray }

  const MAX_NAME_LENGTH := 214

  predicate NameChar(c: char) {
    'a' <= c <= 'z' || '0' <= c <= '9' || c == '-' || c == '_' || c == '@' || c == '/' || c == ':' || c == '.'
  }

  /** annex_util_is_valid_package_name. */
  predicate ValidName(name: string) {
    && 0 < |name| <= MAX_NAME_LENGTH && name[0] != '.' && name[0] != '_'
    && forall c <- name :: NameChar(c)
  }

  predicate PathLike(s: string) {
    |s| >= 2 && s[0] == '.' && s[1] == '/'
  }

  const START := "./"
  const LETTERS := "abcdefghijklmnopqrstuvwxyz"
  const DIGITS := "0123456789"
  const FIRST := LETTERS + DIGITS + "-@/:"
  const LATER := FIRST + "._"

  /** Package names are written with a fixed alphabet, and no dot or underscore comes first. */
  lemma NamesAre(name: string)
    ensures ValidName(name) <==> 1 <= |name| <= 214 && name[0] in FIRST && forall i :: 0 <= i < |name| ==> name[i] in LATER
    ensures PathLike(name) <==> START <= name
  {
    forall i | 0 <= i < |name|
      ensures NameChar(name[i]) <==> name[i] in LATER
    {
      CharsAre(name[i]);
    }
    if name != [] {
      CharsAre(name[0]);
    }
  }

  lemma CharsAre(c: char)
    ensures NameChar(c) <==> c in LATER
    ensures c in LATER && c != '.' && c != '_' <==> c in FIRST
  {
    InLetters(c);
    InDigits(c);
    hide LETTERS, DIGITS;
    var marks := "-@/:";
    assert c in FIRST <==> c in LETTERS || c in DIGITS || c in marks;
    assert c in LATER <==> c in FIRST || c == '.' || c == '_';
  }

  lemma InLetters(c: char)
    ensures c in LETTERS <==> 'a' <= c <= 'z'
  {
    if 'a' <= c <= 'z' {
      assert LETTERS[c as int - 'a' as int] == c;
    }
  }

  lemma InDigits(c: char)
    ensures c in DIGITS <==> '0' <= c <= '9'
  {
    if '0' <= c <= '9' {
      assert DIGITS[c as int - '0' as int] == c;
    }
  }

  // ----- The validator -----

  datatype Verdict = Accepted | Absent | Refused(problem: Problem)

  datatype Problem =
    | NotPathLike | NeitherMainNorPath | MainNotString | PathNotString | MixedModuleType
    | NotAnObject | NoPackages | PackagesNotAnObject

  function ExpectPathLike(s: string): Verdict {
    if PathLike(s) then Accepted else Refused(NotPathLike)
  }

  function ValidatePathOrMain(info: Value): Verdict {
    if info.Str? then ExpectPathLike(info.text)
    else
      var main, path := FindOwn(info, "main"), FindOwn(info, "path");
      if main.None? && path.None? then Refused(NeitherMainNorPath)
      else if main.Some? && !main.value.Str? then Refused(MainNotString)
      else if main.Some? && !PathLike(main.value.text) then Refused(NotPathLike)
      else if path.Some? && !path.value.Str? then Refused(PathNotString)
      else if path.Some? && !PathLike(path.value.text) then Refused(NotPathLike)
      else Accepted
  }

  function TypeKey(t: ModuleType): string
    requires !t.Neither?
  {
    if t.EsModule? then "module" else "commonjs"
  }

  function ValidateModuleType(info: Value, t: ModuleType): Verdict
    requires !t.Neither?
  {
    var v := FindOwn(info, TypeKey(t));
    if v.None? then Absent else ValidatePathOrMain(v.value)
  }

  function ValidatePackageInfo(info: Value): Verdict {
    var commonjs := ValidateModuleType(info, CommonJs);
    if commonjs.Refused? then commonjs
    else
      var esmodule := ValidateModuleType(info, EsModule);
      if esmodule.Refused? then esmodule
      else if commonjs.Accepted? || esmodule.Accepted? then
        if FindOwn(info, "path").Some? || FindOwn(info, "main").Some? then Refused(MixedModuleType) else Accepted
      else ValidatePathOrMain(info)
  }

  /** The keys of an object in some order. */
  ghost predicate Lists(keys: seq<string>, props: map<string, Value>) {
    forall k :: k in keys <==> k in props
  }

  /** Every validly named package is well formed; the others are not looked at. */
  ghost predicate Sound(packages: map<string, Value>) {
    forall name <- packages :: ValidName(name) ==> ValidatePackageInfo(packages[name]).Accepted?
  }

  /** Some validly named package is refused for this reason. */
  ghost predicate PackageRefused(packages: map<string, Value>, v: Verdict) {
    exists name :: name in packages && ValidName(name) && ValidatePackageInfo(packages[name]) == v
  }

  /** validate_pmap. */
  method ValidatePmap(pmap: Value, keys: seq<string>) returns (v: Verdict)
    requires IsObject(pmap) && FindOwn(pmap, "packages").Some? && IsObject(pmap.props["packages"]) ==>
               Lists(keys, pmap.props["packages"].props)
    ensures !v.Absent?
    ensures v.Accepted? <==> IsMap(pmap) && Sound(pmap.props["packages"].props)
    ensures v == Refused(NotAnObject) <==> !IsObject(pmap)
    ensures v == Refused(NoPackages) <==> IsObject(pmap) && "packages" !in pmap.props
    ensures v == Refused(PackagesNotAnObject) <==> IsObject(pmap) && "packages" in pmap.props && !IsObject(pmap.props["packages"])
    ensures IsMap(pmap) && v.Refused? ==> PackageRefused(pmap.props["packages"].props, v)
  {
    hide ValidName, ValidatePackageInfo;
    if !IsObject(pmap) {
      return Refused(NotAnObject);
    }
    var packages := FindOwn(pmap, "packages");
    if packages.None? {
      return Refused(NoPackages);
    }
    if !IsObject(packages.value) {
      return Refused(PackagesNotAnObject);
    }
    for i := 0 to |keys|
      invariant forall k <- keys[..i] :: ValidName(k) ==> ValidatePackageInfo(packages.value.props[k]).Accepted?
    {
      assert keys[..i + 1] == keys[..i] + [keys[i]];
      assert keys[i] in keys;
      if !ValidName(keys[i]) {
        continue;
      }
      var info := FindOwn(packages.value, keys[i]);
      v := ValidatePackageInfo(info.value);
      NeverAbsent(info.value);
      OwnProblems(info.value);
      if v.Refused? {
        return;
      }
    }
    assert keys[..|keys|] == keys;
    v := Accepted;
  }

  predicate IsMap(pmap: Value) {
    IsObject(pmap) && FindOwn(pmap, "packages").Some? && IsObject(pmap.props["packages"])
  }

  lemma MapsAre(pmap: Value)
    ensures IsMap(pmap) <==>
              exists props: map<string, Value>, packages: map<string, Value> ::
                pmap == Obj(props, false) && "packages" in props && props["packages"] == Obj(packages, false)
  {
    if IsMap(pmap) {
      assert pmap == Obj(pmap.props, false) && pmap.props["packages"] == Obj(pmap.props["packages"].props, false);
    }
  }

  lemma NeverAbsent(info: Value)
    ensures !ValidatePackageInfo(info).Absent?
  {}

  lemma OwnProblems(info: Value)
    ensures ValidatePackageInfo(info).Refused? ==>
              !(ValidatePackageInfo(info).problem in {NotAnObject, NoPackages, PackagesNotAnObject})
  {}

  /** The reason for which a package is refused is true of it. */
  lemma ProblemsAreTrue(info: Value)
    ensures ValidatePackageInfo(info) == Refused(MixedModuleType) ==>
              && (FindOwn(info, "module").Some? || FindOwn(info, "commonjs").Some?)
              && (FindOwn(info, "main").Some? || FindOwn(info, "path").Some?)
    ensures (forall s :: PartOf(info, Str(s)) ==> PathLike(s)) ==> ValidatePackageInfo(info) != Refused(NotPathLike)
    ensures ValidatePackageInfo(info) == Refused(MainNotString) ==> exists v: Value :: !v.Str? && HasPart(info, "main", v)
    ensures ValidatePackageInfo(info) == Refused(PathNotString) ==> exists v: Value :: !v.Str? && HasPart(info, "path", v)
    ensures ValidatePackageInfo(info) == Refused(NeitherMainNorPath) ==>
              exists v: Value :: IsEntryPlace(info, v) && FindOwn(v, "main").None? && FindOwn(v, "path").None?
  {}

  /** The value itself, or an entry of it for a module type. */
  ghost predicate IsEntryPlace(info: Value, v: Value) {
    v == info || FindOwn(info, "module") == Some(v) || FindOwn(info, "commonjs") == Some(v)
  }

  ghost predicate HasPart(info: Value, key: string, v: Value) {
    exists e: Value :: IsEntryPlace(info, e) && FindOwn(e, key) == Some(v)
  }

  ghost predicate PartOf(info: Value, v: Value) {
    IsEntryPlace(info, v) || HasPart(info, "main", v) || HasPart(info, "path", v)
  }

  /** What a package may be, without the steps of the validator: a path, an object with paths as main or path, or an
      object that has one of these for one or both module types and neither main nor path itself. */
  ghost predicate WellFormed(info: Value) {
    if FindOwn(info, "module").None? && FindOwn(info, "commonjs").None? then IsEntry(info)
    else
      && FindOwn(info, "main").None? && FindOwn(info, "path").None?
      && (forall key | key == "module" || key == "commonjs" :: FindOwn(info, key).Some? ==> IsEntry(FindOwn(info, key).value))
  }

  ghost predicate IsEntry(v: Value) {
    || (v.Str? && PathLike(v.text))
    || (&& v.Obj? && ("main" in v.props || "path" in v.props)
        && forall key | key == "main" || key == "path" :: key in v.props ==> v.props[key].Str? && PathLike(v.props[key].text))
  }

  lemma ValidatorIsExact(info: Value)
    ensures ValidatePackageInfo(info).Accepted? <==> WellFormed(info)
  {
    EntryIsExact(info);
    if FindOwn(info, "module").Some? {
      EntryIsExact(FindOwn(info, "module").value);
    }
    if FindOwn(info, "commonjs").Some? {
      EntryIsExact(FindOwn(info, "commonjs").value);
    }
  }

  lemma EntryIsExact(v: Value)
    ensures ValidatePathOrMain(v).Accepted? <==> IsEntry(v)
    ensures !ValidatePathOrMain(v).Absent?
  {
    hide PathLike;
  }

  /** A package whose main lacks the leading "./" is refused, although the documentation shows one. */
  lemma DocumentedMainIsRefused()
    ensures ValidatePackageInfo(Obj(map["main" := Str("index.js"), "path" := Str("./jjs_subpath")], false)) == Refused(NotPathLike)
  {
    var info := Obj(map["main" := Str("index.js"), "path" := Str("./jjs_subpath")], false);
    assert FindOwn(info, "main") == Some(Str("index.js"));
    assert "module" !in info.props && "commonjs" !in info.props;
  }

  // ----- The resolver -----

  /** get_path_type: a call for a module type looks once more, without one. */
  function GetPathType(v: Value, key: string, t: ModuleType): Option<string>
    decreases if t.Neither? then 0 else 1
  {
    if v.Str? then Some(v.text)
    else if !v.Obj? then None
    else if FindOwn(v, key).Some? && FindOwn(v, key).value.Str? then Some(FindOwn(v, key).value.text)
    else if t.Neither? then None
    else if FindOwn(v, TypeKey(t)).None? then None
    else GetPathType(FindOwn(v, TypeKey(t)).value, key, Neither)
  }

  /** What the resolver gets from an accepted package starts with "./", for main and path and any module type. */
  lemma PathsAreSound(info: Value, key: string, t: ModuleType)
    requires ValidatePackageInfo(info).Accepted? && (key == "main" || key == "path")
    ensures GetPathType(info, key, t).Some? ==> PathLike(GetPathType(info, key, t).value)
  {
    hide PathLike;
    ValidatorIsExact(info);
    if !t.Neither? && FindOwn(info, TypeKey(t)).Some? {
      EntryPath(FindOwn(info, TypeKey(t)).value, key);
    }
  }

  /** What one entry gives for main or path: a string stands for both. */
  ghost predicate EntryGives(v: Value, key: string, path: Option<string>) {
    match v
    case Str(text) => path == Some(text)
    case Obj(props, _) => if key in props then props[key].Str? && path == Some(props[key].text) else path == None
    case Other => false
  }

  /** What the resolver gets from an accepted package: an ES module what the entry "module" gives, a CommonJS module what
      "commonjs" gives, and a package without these entries gives the same to both. */
  lemma PathIs(info: Value, key: string, t: ModuleType)
    requires ValidatePackageInfo(info).Accepted? && (key == "main" || key == "path")
    ensures FindOwn(info, "module").None? && FindOwn(info, "commonjs").None? ==> EntryGives(info, key, GetPathType(info, key, t))
    ensures FindOwn(info, "module").Some? || FindOwn(info, "commonjs").Some? ==>
              match t
              case EsModule =>
                var entry := FindOwn(info, "module");
                if entry.Some? then EntryGives(entry.value, key, GetPathType(info, key, t)) else GetPathType(info, key, t) == None
              case CommonJs =>
                var entry := FindOwn(info, "commonjs");
                if entry.Some? then EntryGives(entry.value, key, GetPathType(info, key, t)) else GetPathType(info, key, t) == None
              case Neither => GetPathType(info, key, t) == None
  {
    hide PathLike;
    ValidatorIsExact(info);
  }

  /** A package with a file for each module type. */
  lemma TypesDiffer(esm: string, cjs: string)
    requires PathLike(esm) && PathLike(cjs)
    ensures var info := Obj(map["module" := Str(esm), "commonjs" := Str(cjs)], false);
            && ValidatePackageInfo(info).Accepted?
            && GetPathType(info, "main", EsModule) == Some(esm) && GetPathType(info, "main", CommonJs) == Some(cjs)
            && GetPathType(info, "main", Neither) == None
  {
    var info := Obj(map["module" := Str(esm), "commonjs" := Str(cjs)], false);
    assert "main" !in info.props && "path" !in info.props;
    assert FindOwn(info, "module") == Some(Str(esm)) && FindOwn(info, "commonjs") == Some(Str(cjs));
  }

  lemma EntryPath(v: Value, key: string)
    requires IsEntry(v) && (key == "main" || key == "path")
    ensures GetPathType(v, key, Neither).Some? ==> PathLike(GetPathType(v, key, Neither).value)
  {
    hide PathLike;
  }

  /** lastIndexOf "/" at or before a position, or -1. */
  method LastSlash(s: string, position: nat) returns (i: int)
    ensures -1 <= i <= position && i < |s|
    ensures i >= 0 ==> s[i] == '/'
    ensures forall j | i < j < |s| && j <= position :: s[j] != '/'
  {
    i := if position >= |s| then |s| - 1 else position;
    while i >= 0 && s[i] != '/'
      invariant -1 <= i < |s| && i <= position
      invariant forall j | i < j < |s| && j <= position :: s[j] != '/'
    {
      i := i - 1;
    }
  }

  /** The result of a search: no package, a package without a file, or a file. */
  datatype Search = NotFound | Empty | File(path: string)

  /** A package is registered under the part of the specifier before slash i. */
  predicate Registered(specifier: string, i: int, packages: map<string, Value>) {
    0 <= i < |specifier| && specifier[i] == '/' && specifier[..i] in packages
  }

  /** The longest registered prefix: no later slash has a package before it. */
  ghost predicate Nearest(specifier: string, i: int, packages: map<string, Value>) {
    Registered(specifier, i, packages) && forall j :: Registered(specifier, j, packages) ==> j <= i
  }

  /** The file of a package and of the rest of the specifier behind its slash. */
  function FileOf(info: Value, root: string, trailing: string, t: ModuleType, realpath: string -> Option<string>): Search {
    var path := GetPathType(info, "path", t);
    if path.None? then Empty
    else
      var file := realpath(root + "/" + path.value + "/" + trailing);
      if file.None? then Empty else File(file.value)
  }

  /** A package gives a file exactly if it has a path and the file exists below it. */
  lemma FileIs(info: Value, root: string, trailing: string, t: ModuleType, realpath: string -> Option<string>, file: string)
    ensures FileOf(info, root, trailing, t, realpath) == File(file) <==>
              exists path: string :: GetPathType(info, "path", t) == Some(path)
                                     && realpath(root + "/" + path + "/" + trailing) == Some(file)
    ensures FileOf(info, root, trailing, t, realpath) != NotFound
  {
    hide GetPathType;
  }

  /** The file lies where a path of the package leads that starts with "./". */
  ghost predicate SoundFile(info: Value, root: string, trailing: string, t: ModuleType, realpath: string -> Option<string>, file: string) {
    exists path: string :: PathLike(path) && GetPathType(info, "path", t) == Some(path)
                           && realpath(root + "/" + path + "/" + trailing) == Some(file)
  }

  lemma FileIsSound(info: Value, root: string, trailing: string, t: ModuleType, realpath: string -> Option<string>)
    requires var path := GetPathType(info, "path", t); path.Some? ==> PathLike(path.value)
    ensures var f := FileOf(info, root, trailing, t, realpath);
            f.File? ==> SoundFile(info, root, trailing, t, realpath, f.path)
  {
    hide GetPathType, PathLike;
  }

  /** find_nearest_package_path: the longest registered prefix decides, even if its package has no path. */
  method FindNearest(packages: map<string, Value>, root: string, specifier: string, t: ModuleType, realpath: string -> Option<string>)
    returns (r: Search)
    ensures forall i :: Nearest(specifier, i, packages) ==>
              r == FileOf(packages[specifier[..i]], root, specifier[i + 1..], t, realpath)
    ensures (forall i :: !Registered(specifier, i, packages)) ==>
              r == if specifier != "" && specifier[0] == '/' then Empty else NotFound
  {
    hide GetPathType;
    var position := |specifier|;
    r := NotFound;
    while true
      invariant r == NotFound && 0 <= position <= |specifier|
      invariant forall j :: Registered(specifier, j, packages) ==> j <= position
      decreases position
    {
      var slash := LastSlash(specifier, position);
      if slash < 0 {
        return;
      }
      var package := specifier[..slash];
      if package in packages {
        assert Nearest(specifier, slash, packages);
        r := FileOf(packages[package], root, specifier[slash + 1..], t, realpath);
        return;
      }
      if slash == 0 {
        return Empty;
      }
      position := slash - 1;
    }
  }

  /** The package before a slash was validated if its own name is valid, whatever follows the slash. */
  lemma NearestIsSound(packages: map<string, Value>, specifier: string, i: int, t: ModuleType)
    requires Sound(packages) && Registered(specifier, i, packages) && ValidName(specifier[..i])
    ensures var path := GetPathType(packages[specifier[..i]], "path", t); path.Some? ==> PathLike(path.value)
  {
    PathsAreSound(packages[specifier[..i]], "path", t);
  }

  /** A nonempty prefix of a valid name is a valid name, so a valid specifier meets validated packages at every slash but
      a leading one: the empty name before that is not valid. */
  lemma PrefixIsValid(specifier: string, i: int)
    requires ValidName(specifier) && 0 <= i <= |specifier|
    ensures ValidName(specifier[..i]) <==> i > 0
  {
    assert forall c <- specifier[..i] :: c in specifier;
  }

  /** The exception: a package with the empty name is never validated, and a leading slash leads to it. */
  lemma EmptyNameIsNotValidated(specifier: string, t: ModuleType)
    requires ValidName(specifier) && specifier[0] == '/'
    ensures var packages: map<string, Value> := map["" := Str("x")];
            && Sound(packages) && Nearest(specifier, 0, packages) && specifier !in packages
            && GetPathType(packages[specifier[..0]], "path", t) == Some("x") && !PathLike("x")
  {}

  // ----- The map that is set -----

  /** The package map of a context. */
  class Context {
    var pmap: Option<Value>
    var pmapRoot: Option<string>

    constructor ()
      ensures Valid() && pmap == None
    {
      pmap, pmapRoot := None, None;
    }

    ghost predicate Valid()
      reads this
    {
      (pmap.Some? <==> pmapRoot.Some?) && (pmap.Some? ==> IsMap(pmap.value) && Sound(pmap.value.props["packages"].props))
    }

    /** jjs_pmap: a map that is refused, or a root that does not exist, leaves the current map in place. */
    method SetPmap(map_: Value, keys: seq<string>, root: Option<Value>, cwd: Option<string>, realpath: string -> Option<string>)
      returns (ok: bool)
      requires Valid() && (IsMap(map_) ==> Lists(keys, map_.props["packages"].props))
      modifies this
      ensures Valid()
      ensures ok ==> pmap == Some(map_)
      ensures ok ==> match root case None => pmapRoot == cwd case Some(v) => v.Str? && pmapRoot == realpath(v.text)
      ensures !ok ==> pmap == old(pmap) && pmapRoot == old(pmapRoot)
      ensures ok <==> IsMap(map_) && Sound(map_.props["packages"].props)
                      && match root case None => cwd.Some? case Some(v) => v.Str? && realpath(v.text).Some?
    {
      hide ValidName, ValidatePackageInfo, Sound;
      var v := ValidatePmap(map_, keys);
      if !v.Accepted? {
        return false;
      }
      var resolved := match root
        case None => cwd
        case Some(v) => if v.Str? then realpath(v.text) else None;
      if resolved.None? {
        return false;
      }
      pmap, pmapRoot := Some(map_), resolved;
      ok := true;
    }

    /** jjs_annex_pmap_resolve. An exact name resolves to its main, any other specifier to a file of its package. */
    method Resolve(specifier: string, t: ModuleType, realpath: string -> Option<string>) returns (r: Option<string>)
      requires Valid()
      ensures pmap.None? ==> r.None?
      ensures pmap.Some? && specifier in pmap.value.props["packages"].props ==>
                var main := GetPathType(pmap.value.props["packages"].props[specifier], "main", t);
                && r == (if main.None? then None else realpath(pmapRoot.value + "/" + main.value))
                && (main.Some? && ValidName(specifier) ==> PathLike(main.value))
      ensures pmap.Some? && specifier !in pmap.value.props["packages"].props ==>
                forall i :: Nearest(specifier, i, pmap.value.props["packages"].props) ==>
                  (var f := FileOf(pmap.value.props["packages"].props[specifier[..i]], pmapRoot.value, specifier[i + 1..], t, realpath);
                   && r == (if f.File? then Some(f.path) else None)
                   && (r.Some? && ValidName(specifier[..i]) ==>
                         SoundFile(pmap.value.props["packages"].props[specifier[..i]], pmapRoot.value, specifier[i + 1..], t, realpath, r.value)))
      ensures pmap.Some? && specifier !in pmap.value.props["packages"].props ==>
                (forall i :: !Registered(specifier, i, pmap.value.props["packages"].props)) ==> r.None?
    {
      hide ValidName, ValidatePackageInfo, GetPathType, FileOf, PathLike, SoundFile;
      if pmap.None? || pmapRoot.None? {
        return None;
      }
      var packages := pmap.value.props["packages"].props;
      if specifier !in packages {
        var s := FindNearest(packages, pmapRoot.value, specifier, t, realpath);
        forall i | Nearest(specifier, i, packages) && s.File? && ValidName(specifier[..i])
          ensures SoundFile(packages[specifier[..i]], pmapRoot.value, specifier[i + 1..], t, realpath, s.path)
        {
          NearestIsSound(packages, specifier, i, t);
          FileIsSound(packages[specifier[..i]], pmapRoot.value, specifier[i + 1..], t, realpath);
        }
        return if s.File? then Some(s.path) else None;
      }
      var main := GetPathType(packages[specifier], "main", t);
      if ValidName(specifier) {
        PathsAreSound(packages[specifier], "main", t);
      }
      r := if main.None? then None else realpath(pmapRoot.value + "/" + main.value);
    }
  }
}
