/** `src/mods.rs`: the mod catalogue, the download page of a mod, and the
    discovery of installed mods in a server's `mods` folder. */
module Mods {

  import opened Outcomes
  import opened Text

  /** `MODS`: the recommended mods, by display name. */
  const MODS: seq<string> := ["Lithium", "Fabric-Api", "Ferritecore", "C2me", "Servercore",
                              "Structure_Layout_Optimizer", "ScalableLux"]

  /** Every catalogue page is a Modrinth project's version list. */
  const PagePrefix: string := "https://modrinth.com/mod/"
  const PageSuffix: string := "/versions"

  /** The Modrinth project of each catalogue mod. */
  const MOD_SLUGS: seq<string> := ["lithium", "fabric-api", "ferrite-core", "c2me-fabric", "servercore",
                                   "structure-layout-optimizer", "scalablelux"]

  /** `MOD_URLS`: the download page of `MODS[i]` is `MOD_URLS[i]`, the
      version list of project `MOD_SLUGS[i]`. */
  const MOD_URLS: seq<string> := [Page(MOD_SLUGS[0]), Page(MOD_SLUGS[1]), Page(MOD_SLUGS[2]), Page(MOD_SLUGS[3]),
                                  Page(MOD_SLUGS[4]), Page(MOD_SLUGS[5]), Page(MOD_SLUGS[6])]

  /** The version list of a Modrinth project. */
  function Page(slug: string): string {
    PagePrefix + slug + PageSuffix
  }

  /** The two catalogue arrays have the same length, seven, so every name has
      its page. */
  lemma CatalogueAligned()
    ensures |MODS| == |MOD_URLS| == 7
  {
  }

  /** Which catalogue entry a name is, told by its first two letters once
      lower-cased; -1 for a pair of no entry. The seven slugs start with the
      same two letters as the seven names. */
  function EntryIndex(a: char, b: char): int {
    if a == 'l' then 0
    else if a == 'f' && b == 'a' then 1
    else if a == 'f' && b == 'e' then 2
    else if a == 'c' then 3
    else if a == 's' && b == 'e' then 4
    else if a == 's' && b == 't' then 5
    else if a == 's' && b == 'c' then 6
    else -1
  }

  /** Each catalogue name, lower-cased, and each slug begin with the two
      letters of their own position. */
  lemma EntryIndexOf(i: nat)
    requires i < |MODS|
    ensures |MODS[i]| >= 2 && |MOD_SLUGS[i]| >= 2
    ensures EntryIndex(LowerChar(MODS[i][0]), LowerChar(MODS[i][1])) == i
    ensures EntryIndex(MOD_SLUGS[i][0], MOD_SLUGS[i][1]) == i
  {
    var n, s := MODS[i], MOD_SLUGS[i];
    if i == 0 {
      assert n == "Lithium" && s == "lithium";
      assert n[0] == 'L' && s[0] == 'l';
    } else if i == 1 {
      assert n == "Fabric-Api" && s == "fabric-api";
      assert n[0] == 'F' && n[1] == 'a' && s[0] == 'f' && s[1] == 'a';
    } else if i == 2 {
      assert n == "Ferritecore" && s == "ferrite-core";
      assert n[0] == 'F' && n[1] == 'e' && s[0] == 'f' && s[1] == 'e';
    } else if i == 3 {
      assert n == "C2me" && s == "c2me-fabric";
      assert n[0] == 'C' && s[0] == 'c';
    } else if i == 4 {
      assert n == "Servercore" && s == "servercore";
      assert n[0] == 'S' && n[1] == 'e' && s[0] == 's' && s[1] == 'e';
    } else if i == 5 {
      assert n == "Structure_Layout_Optimizer" && s == "structure-layout-optimizer";
      assert n[0] == 'S' && n[1] == 't' && s[0] == 's' && s[1] == 't';
    } else {
      assert n == "ScalableLux" && s == "scalablelux";
      assert n[0] == 'S' && n[1] == 'c' && s[0] == 's' && s[1] == 'c';
    }
  }

  /** No two catalogue names coincide, even after lower-casing, so the
      installed-mod check of a name can match one catalogue entry only. */
  lemma ModNamesDistinct()
    ensures forall i, j :: 0 <= i < j < |MODS| ==> Lower(MODS[i]) != Lower(MODS[j])
    ensures forall i, j :: 0 <= i < j < |MODS| ==> MODS[i] != MODS[j]
  {
    forall i, j | 0 <= i < j < |MODS|
      ensures Lower(MODS[i]) != Lower(MODS[j])
    {
      EntryIndexOf(i);
      EntryIndexOf(j);
      var a, b := Lower(MODS[i]), Lower(MODS[j]);
      assert a[0] == LowerChar(MODS[i][0]) && a[1] == LowerChar(MODS[i][1]);
      assert b[0] == LowerChar(MODS[j][0]) && b[1] == LowerChar(MODS[j][1]);
    }
  }

  /** No two catalogue pages coincide: the page determines its project, and
      the projects differ. */
  lemma ModUrlsDistinct()
    ensures forall i, j :: 0 <= i < j < |MOD_URLS| ==> MOD_URLS[i] != MOD_URLS[j]
  {
    forall i, j | 0 <= i < j < |MOD_URLS|
      ensures MOD_URLS[i] != MOD_URLS[j]
    {
      EntryIndexOf(i);
      EntryIndexOf(j);
      assert MOD_URLS[i] == Page(MOD_SLUGS[i]) && MOD_URLS[j] == Page(MOD_SLUGS[j]);
      if MOD_URLS[i] == MOD_URLS[j] {
        PageInjective(MOD_SLUGS[i], MOD_SLUGS[j]);
      }
    }
  }

  /** The project can be read back from its page. */
  lemma PageInjective(a: string, b: string)
    requires Page(a) == Page(b)
    ensures a == b
  {
    var u := Page(a);
    assert u[|PagePrefix|..|u| - |PageSuffix|] == a;
    assert Page(b)[|PagePrefix|..|u| - |PageSuffix|] == b;
  }

  /** `Iterator::position`: the first index holding `name`. */
  function Position(names: seq<string>, name: string): (r: Option<nat>)
    ensures r.Some? <==> name in names
    ensures r.Some? ==> r.value < |names| && names[r.value] == name
    ensures r.Some? ==> forall j :: 0 <= j < r.value ==> names[j] != name
  {
    if |names| == 0 then None
    else if names[0] == name then Some(0)
    else match Position(names[1..], name)
      case None => None
      case Some(i) => Some(i + 1)
  }

  /** The page of `name` in a catalogue of parallel `names` and `pages`,
      with `version` as the `g` query parameter. */
  function CataloguePage(names: seq<string>, pages: seq<string>, name: string, version: string): (r: Outcome<string>)
    requires |names| == |pages|
    ensures r.Ok? <==> name in names
    ensures !r.Ok? ==> r.Panic?
    ensures r.Ok? ==> r.value == pages[Position(names, name).value] + "?g=" + version
  {
    match Position(names, name)
    case None => Panic
    case Some(i) => Ok(pages[i] + "?g=" + version)
  }

  /** With distinct pages, the page of one version tells the mods apart. */
  lemma CataloguePageInjective(names: seq<string>, pages: seq<string>, a: string, b: string, version: string)
    requires |names| == |pages|
    requires forall i, j :: 0 <= i < j < |pages| ==> pages[i] != pages[j]
    requires CataloguePage(names, pages, a, version).Ok?
    requires CataloguePage(names, pages, a, version) == CataloguePage(names, pages, b, version)
    ensures a == b
  {
    var i, j := Position(names, a).value, Position(names, b).value;
    assert pages[i] + "?g=" + version == pages[i] + ("?g=" + version);
    assert pages[j] + "?g=" + version == pages[j] + ("?g=" + version);
    SuffixCancels(pages[i], pages[j], "?g=" + version);
  }

  /** `get_url(mod_name, version)`: the catalogue page of the mod with the
      game version as `g` query parameter, taken at the first position of the
      name; a name outside the catalogue makes `unwrap` panic. */
  function GetUrl(name: string, version: string): (r: Outcome<string>)
    ensures r.Ok? <==> name in MODS
    ensures !r.Ok? ==> r.Panic?
    ensures r.Ok? ==> exists i :: 0 <= i < |MODS| && MODS[i] == name && (forall j :: 0 <= j < i ==> MODS[j] != name)
                                && r.value == MOD_URLS[i] + "?g=" + version
  {
    CataloguePage(MODS, MOD_URLS, name, version)
  }

  /** For one game version, different mods never share a download page. */
  lemma {:induction false} GetUrlDistinguishesMods(a: string, b: string, version: string)
    requires GetUrl(a, version).Ok? && GetUrl(a, version) == GetUrl(b, version)
    ensures a == b
  {
    ModUrlsDistinct();
    CataloguePageInjective(MODS, MOD_URLS, a, b, version);
  }

  lemma SuffixCancels(x: string, y: string, suffix: string)
    requires x + suffix == y + suffix
    ensures x == y
  {
    assert |x| == |y|;
    assert x == (x + suffix)[..|x|];
  }

  /** The page of a mod determines the game version: the text after the
      catalogue page and `?g=` is the version, verbatim. */
  lemma GetUrlRecoversVersion(name: string, v: string, w: string)
    requires GetUrl(name, v).Ok? && GetUrl(name, v) == GetUrl(name, w)
    ensures v == w
  {
    var page := MOD_URLS[Position(MODS, name).value];
    var url := GetUrl(name, v).value;
    assert url == page + "?g=" + v;
    assert v == url[|page| + 3..] == w;
  }

  // ---------------------------------------------------------------------------
  // Installed mods

  /** The `fabric.mod.json` entry of a jar, as far as decoding goes:
      not UTF-8 text, or text whose JSON decoding yields an `id` string or
      fails (`None`). */
  datatype Manifest = NonUtf8 | Json(id: Option<string>)

  /** A `.jar` file: it cannot be opened, it is not a zip archive, or it is
      one, with or without a `fabric.mod.json` entry. */
  datatype Jar = Unopenable | NotAnArchive | Archive(manifest: Option<Manifest>)

  /** `get_fabric_mod_id`: the `id` of the jar's manifest. */
  function GetFabricModId(jar: Jar): (r: Outcome<string>)
    ensures r.Ok? <==> jar.Archive? && jar.manifest.Some? && jar.manifest.value.Json? && jar.manifest.value.id.Some?
    ensures r.Ok? ==> r.value == jar.manifest.value.id.value
    ensures !r.Ok? ==> r.Err?
    ensures jar.Archive? && jar.manifest.None? ==> r == Err(NotFound)
    ensures jar.NotAnArchive? || (jar.Archive? && jar.manifest.Some? && !r.Ok?) ==> r == Err(InvalidData)
  {
    match jar
    case Unopenable => Err(Os)
    case NotAnArchive => Err(InvalidData)
    case Archive(None) => Err(NotFound)
    case Archive(Some(NonUtf8)) => Err(InvalidData)
    case Archive(Some(Json(None))) => Err(InvalidData)
    case Archive(Some(Json(Some(id)))) => Ok(id)
  }

  /** One item of `read_dir`: an error item, or a named file. */
  datatype DirEntry<T> = Unreadable | Entry(name: string, content: T)

  /** The `mods` folder of a server version. */
  datatype ModsFolder = Missing | Unlistable | Listing(entries: seq<DirEntry<Jar>>)

  predicate IsJarEntry(e: DirEntry<Jar>) {
    e.Entry? && EndsWith(e.name, ".jar")
  }

  /** The jars of a listing, in listing order. */
  function Jars(entries: seq<DirEntry<Jar>>): (r: seq<Jar>)
    ensures |r| <= |entries|
  {
    if |entries| == 0 then []
    else (if IsJarEntry(entries[0]) then [entries[0].content] else []) + Jars(entries[1..])
  }

  predicate AllIdsReadable(jars: seq<Jar>) {
    forall k :: 0 <= k < |jars| ==> GetFabricModId(jars[k]).Ok?
  }

  /** The loop of `get_mods` over a listing: each `.jar` item contributes its
      mod id, every other item nothing; a jar whose id cannot be read makes
      `unwrap` panic. */
  function CollectIds(entries: seq<DirEntry<Jar>>): (r: Outcome<seq<string>>)
    ensures !r.Err?
    ensures r.Ok? <==> AllIdsReadable(Jars(entries))
    ensures r.Ok? ==> |r.value| == |Jars(entries)|
    ensures r.Ok? ==> forall k :: 0 <= k < |r.value| ==> r.value[k] == GetFabricModId(Jars(entries)[k]).value
  {
    if |entries| == 0 then Ok([])
    else
      var rest := CollectIds(entries[1..]);
      var tail := Jars(entries[1..]);
      if IsJarEntry(entries[0]) then
        var id := GetFabricModId(entries[0].content);
        assert Jars(entries) == [entries[0].content] + tail;
        if !id.Ok? then
          assert Jars(entries)[0] == entries[0].content;
          Panic
        else if rest.Panic? then
          assert !AllIdsReadable(tail);
          var k :| 0 <= k < |tail| && !GetFabricModId(tail[k]).Ok?;
          assert Jars(entries)[k + 1] == tail[k];
          Panic
        else Ok([id.value] + rest.value)
      else
        assert Jars(entries) == tail;
        rest
  }

  /** `get_mods(version)`: the ids of the installed mods, in listing order.
      A missing folder gives no mods; a folder that cannot be listed makes
      `unwrap` panic. */
  function GetMods(folder: ModsFolder): (r: Outcome<seq<string>>)
    ensures folder.Missing? ==> r == Ok([])
    ensures folder.Unlistable? ==> r.Panic?
    ensures !r.Err?
    ensures folder.Listing? ==>
      && (r.Ok? <==> AllIdsReadable(Jars(folder.entries)))
      && (r.Ok? ==> |r.value| == |Jars(folder.entries)|)
      && (r.Ok? ==> forall k :: 0 <= k < |r.value| ==> r.value[k] == GetFabricModId(Jars(folder.entries)[k]).value)
  {
    if folder.Missing? then Ok([])
    else if folder.Unlistable? then Panic
    else CollectIds(folder.entries)
  }
}
