/**
 * The profile store of `ares.py`: profiles, the config record that lists
 * them with the name of the active one, the lookups over it, and the
 * config file whose contents `add`, `delete` and `activate` rewrite.
 */
module Profiles {
  import opened Wrappers

  /** The Android density qualifiers, in the field order of a profile. */
  datatype Density = Ldpi | Mdpi | Hdpi | Xhdpi | Xxhdpi | Xxxhdpi | Nodpi | Tvdpi

  const Densities: seq<Density> := [Ldpi, Mdpi, Hdpi, Xhdpi, Xxhdpi, Xxxhdpi, Nodpi, Tvdpi]

  /** The qualifier as it appears in a folder name (`drawable-<tag>`) and as a config key. */
  function TagName(d: Density): string
  {
    match d
    case Ldpi => "ldpi"
    case Mdpi => "mdpi"
    case Hdpi => "hdpi"
    case Xhdpi => "xhdpi"
    case Xxhdpi => "xxhdpi"
    case Xxxhdpi => "xxxhdpi"
    case Nodpi => "nodpi"
    case Tvdpi => "tvdpi"
  }

  /** The eight optional suffixes of a profile; `None` is a JSON `null`. */
  datatype Suffixes = Suffixes(
    ldpi: Option<string>, mdpi: Option<string>, hdpi: Option<string>, xhdpi: Option<string>,
    xxhdpi: Option<string>, xxxhdpi: Option<string>, nodpi: Option<string>, tvdpi: Option<string>)

  /** The suffix a profile sets for a density. */
  function SuffixOf(s: Suffixes, d: Density): Option<string>
  {
    match d
    case Ldpi => s.ldpi
    case Mdpi => s.mdpi
    case Hdpi => s.hdpi
    case Xhdpi => s.xhdpi
    case Xxhdpi => s.xxhdpi
    case Xxxhdpi => s.xxxhdpi
    case Nodpi => s.nodpi
    case Tvdpi => s.tvdpi
  }

  /** One entry of the config's `profiles` list. */
  datatype Profile = Profile(name: string, resdir: string, suffixes: Suffixes)

  /** The config document: the active profile's name and the profiles in store order. */
  datatype Config = Config(activeProfile: string, profiles: seq<Profile>)

  /**
   * The (suffix, tag) pairs of a profile: its entries after `name` and
   * `resdir`, one per density field, in field order.
   */
  function SuffixesToFolders(p: Profile): (pairs: seq<(Option<string>, Density)>)
    ensures |pairs| == |Densities|
    ensures forall i :: 0 <= i < |pairs| ==>
      pairs[i].1 == Densities[i] && pairs[i].0 == SuffixOf(p.suffixes, Densities[i])
  {
    var s := p.suffixes;
    [(s.ldpi, Ldpi), (s.mdpi, Mdpi), (s.hdpi, Hdpi), (s.xhdpi, Xhdpi),
     (s.xxhdpi, Xxhdpi), (s.xxxhdpi, Xxxhdpi), (s.nodpi, Nodpi), (s.tvdpi, Tvdpi)]
  }

  /** The profile names in store order, one per profile (what `profile --list` prints). */
  function Names(ps: seq<Profile>): (names: seq<string>)
    ensures |names| == |ps|
    ensures forall i :: 0 <= i < |ps| ==> names[i] == ps[i].name
  {
    if ps == [] then [] else [ps[0].name] + Names(ps[1..])
  }

  /** The first profile with the given name, or `None` where the source's `[0]` raises. */
  function FindByName(ps: seq<Profile>, name: string): (r: Option<Profile>)
    ensures r.None? <==> name !in Names(ps)
    ensures r.Some? ==> r.value in ps && r.value.name == name
  {
    if ps == [] then None
    else if ps[0].name == name then Some(ps[0])
    else
      assert Names(ps) == [ps[0].name] + Names(ps[1..]);
      FindByName(ps[1..], name)
  }

  /** `i` is the position of the first profile called `name`. */
  ghost predicate FirstNamed(ps: seq<Profile>, name: string, i: int)
  {
    0 <= i < |ps| && ps[i].name == name && forall j :: 0 <= j < i ==> ps[j].name != name
  }

  /** The lookup returns the earliest profile carrying the name. */
  lemma {:induction false} FindByNameIsFirst(ps: seq<Profile>, name: string)
    ensures FindByName(ps, name).Some? ==>
      exists i :: FirstNamed(ps, name, i) && ps[i] == FindByName(ps, name).value
  {
    if ps != [] && ps[0].name != name {
      FindByNameIsFirst(ps[1..], name);
      if FindByName(ps, name).Some? {
        var i :| FirstNamed(ps[1..], name, i) && ps[1..][i] == FindByName(ps, name).value;
        assert ps[i + 1] == ps[1..][i];
        forall j | 0 <= j < i + 1 ensures ps[j].name != name {
          if j > 0 { assert ps[j] == ps[1..][j - 1]; }
        }
        assert FirstNamed(ps, name, i + 1);
      }
    } else if ps != [] {
      assert FirstNamed(ps, name, 0);
    }
  }

  /** Appending a profile does not change the lookup of a name already present. */
  lemma {:induction false} FindByNameAppend(ps: seq<Profile>, p: Profile, name: string)
    ensures FindByName(ps + [p], name) ==
      if name in Names(ps) then FindByName(ps, name)
      else if p.name == name then Some(p) else None
  {
    if ps == [] {
      assert Names(ps) == [];
      assert ps + [p] == [p];
    } else {
      assert (ps + [p])[1..] == ps[1..] + [p];
      assert Names(ps) == [ps[0].name] + Names(ps[1..]);
      FindByNameAppend(ps[1..], p, name);
    }
  }

  /** The profile `get_default_profile` returns: the lookup of the active name. */
  function DefaultProfile(c: Config): (r: Option<Profile>)
    ensures r.Some? <==> c.activeProfile in Names(c.profiles)
    ensures r.Some? ==> r.value in c.profiles && r.value.name == c.activeProfile
  {
    FindByName(c.profiles, c.activeProfile)
  }

  /** The profiles whose name is not `name`, in their original order (the `filter` of delete). */
  function WithoutName(ps: seq<Profile>, name: string): (r: seq<Profile>)
    ensures forall p :: p in r <==> p in ps && p.name != name
    ensures |r| <= |ps|
  {
    if ps == [] then []
    else if ps[0].name == name then WithoutName(ps[1..], name)
    else [ps[0]] + WithoutName(ps[1..], name)
  }

  /** The filter keeps the order of what remains: it distributes over concatenation. */
  lemma {:induction false} WithoutNameAppend(a: seq<Profile>, b: seq<Profile>, name: string)
    ensures WithoutName(a + b, name) == WithoutName(a, name) + WithoutName(b, name)
  {
    if a == [] {
      assert a + b == b;
    } else {
      assert (a + b)[1..] == a[1..] + b;
      WithoutNameAppend(a[1..], b, name);
    }
  }

  /** Deleting a name that no profile carries leaves the list as it was. */
  lemma {:induction false} WithoutAbsentName(ps: seq<Profile>, name: string)
    requires name !in Names(ps)
    ensures WithoutName(ps, name) == ps
  {
    if ps != [] {
      assert Names(ps) == [ps[0].name] + Names(ps[1..]);
      WithoutAbsentName(ps[1..], name);
    }
  }

  /** No two profiles share a name. */
  ghost predicate UniqueNames(ps: seq<Profile>)
  {
    forall i, j :: 0 <= i < j < |ps| ==> ps[i].name != ps[j].name
  }

  /**
   * A config as `add` and `delete` keep it: names are unique and the active
   * profile is one of them, so `get_default_profile` cannot raise.
   */
  ghost predicate WellFormed(c: Config)
  {
    UniqueNames(c.profiles) && c.activeProfile in Names(c.profiles)
  }

  /** Filtering out a name keeps the remaining names unique. */
  lemma {:induction false} WithoutNameUnique(ps: seq<Profile>, name: string)
    requires UniqueNames(ps)
    ensures UniqueNames(WithoutName(ps, name))
  {
    if ps != [] {
      assert UniqueNames(ps[1..]) by {
        forall i, j | 0 <= i < j < |ps[1..]| ensures ps[1..][i].name != ps[1..][j].name {
          assert ps[1..][i] == ps[i + 1] && ps[1..][j] == ps[j + 1];
        }
      }
      WithoutNameUnique(ps[1..], name);
      var rest := WithoutName(ps[1..], name);
      if ps[0].name != name {
        var r := [ps[0]] + rest;
        assert r[1..] == rest;
        forall i, j | 0 <= i < j < |r| ensures r[i].name != r[j].name {
          if i == 0 {
            assert r[j] in ps[1..];
            var k :| 0 <= k < |ps[1..]| && ps[1..][k] == r[j];
            assert ps[k + 1] == r[j];
          } else {
            assert r[i] == r[1..][i - 1];
            assert r[j] == r[1..][j - 1];
          }
        }
      }
    }
  }

  /** Appending a profile with a new name keeps a well-formed config so, with it active, and it is then found. */
  lemma AddKeepsWellFormed(c: Config, p: Profile)
    requires p.name !in Names(c.profiles)
    ensures WellFormed(c) ==> WellFormed(Config(p.name, c.profiles + [p]))
    ensures FindByName(c.profiles + [p], p.name) == Some(p)
  {
    var ps := c.profiles + [p];
    FindByNameAppend(c.profiles, p, p.name);
    assert Names(ps)[|ps| - 1] == p.name;
    if WellFormed(c) {
      forall i, j | 0 <= i < j < |ps| ensures ps[i].name != ps[j].name {
        if j == |ps| - 1 {
          assert Names(c.profiles)[i] == ps[i].name;
        }
      }
    }
  }

  /** Appending a profile with a new name changes the lookup of no other name. */
  lemma AddKeepsOtherLookups(c: Config, p: Profile)
    requires p.name !in Names(c.profiles)
    ensures forall n :: n != p.name ==> FindByName(c.profiles + [p], n) == FindByName(c.profiles, n)
  {
    forall n | n != p.name ensures FindByName(c.profiles + [p], n) == FindByName(c.profiles, n) {
      FindByNameAppend(c.profiles, p, n);
    }
  }

  /** The config `add` writes when there is no config file yet: the new profile alone, active. */
  lemma FirstProfileWellFormed(p: Profile)
    ensures WellFormed(Config(p.name, [p]))
    ensures FindByName([p], p.name) == Some(p)
  {
    assert Names([p]) == [p.name];
  }

  /** A successful delete keeps the config well formed. */
  lemma DeleteKeepsWellFormed(c: Config, name: string)
    requires WellFormed(c) && name != c.activeProfile
    ensures WellFormed(c.(profiles := WithoutName(c.profiles, name)))
  {
    var r := WithoutName(c.profiles, name);
    WithoutNameUnique(c.profiles, name);
    var d := DefaultProfile(c).value;
    assert d in r;
    var k :| 0 <= k < |r| && r[k] == d;
    assert Names(r)[k] == c.activeProfile;
  }

  /** After a successful delete no profile carries the name, and the default profile is the same one. */
  lemma DeleteKeepsDefault(c: Config, name: string)
    requires WellFormed(c) && name != c.activeProfile
    ensures name !in Names(WithoutName(c.profiles, name))
    ensures DefaultProfile(c.(profiles := WithoutName(c.profiles, name))) == DefaultProfile(c)
  {
    var r := WithoutName(c.profiles, name);
    DeleteKeepsWellFormed(c, name);
    var d := DefaultProfile(c).value;
    var e := DefaultProfile(c.(profiles := r)).value;
    assert e in c.profiles;
    var i :| 0 <= i < |c.profiles| && c.profiles[i] == e;
    var j :| 0 <= j < |c.profiles| && c.profiles[j] == d;
    assert i == j;
  }

  datatype StoreError =
    | NotInitialized              // the config file does not exist
    | MissingResourceDir          // `add` without RESOURCE_DIRECTORY
    | DuplicateName(name: string) // `add` of a name already in the store
    | CannotDeleteActive(name: string)
    | ProfileNotFound(name: string)
    | ActiveProfileMissing(name: string) // the uncaught IndexError of get_default_profile

  /**
   * The config file `~/.ares/config.json`: whether it exists, the config it
   * holds, and how many times it has been written.
   */
  class ConfigFile {
    var present: bool
    var config: Config
    var writes: nat

    ghost predicate Valid()
      reads this
    {
      present ==> WellFormed(config)
    }

    /** No config file yet. */
    constructor Missing()
      ensures !present && writes == 0 && Valid()
    {
      present := false;
      config := Config("", []);
      writes := 0;
    }

    /** A config file already on disk with contents `c`. */
    constructor Existing(c: Config)
      ensures present && config == c && writes == 0
    {
      present := true;
      config := c;
      writes := 0;
    }

    /** `profile --add NAME RESOURCE_DIRECTORY [--<tag> SUFFIX ...]`. */
    method AddProfile(name: string, resdir: Option<string>, suffixes: Suffixes) returns (r: Outcome<StoreError>)
      modifies this
      ensures resdir.None? ==> r == Fail(MissingResourceDir) && unchanged(this)
      ensures resdir.Some? && old(present) && name in Names(old(config).profiles) ==>
        r == Fail(DuplicateName(name)) && unchanged(this)
      ensures resdir.Some? && !old(present) ==>
        r == Pass && present && writes == old(writes) + 1 &&
        config == Config(name, [Profile(name, resdir.value, suffixes)])
      ensures resdir.Some? && old(present) && name !in Names(old(config).profiles) ==>
        r == Pass && present && writes == old(writes) + 1 &&
        config == Config(name, old(config).profiles + [Profile(name, resdir.value, suffixes)])
      ensures old(Valid()) ==> Valid()
      ensures r == Pass ==> FindByName(config.profiles, name) == Some(Profile(name, resdir.value, suffixes))
    {
      if resdir.None? {
        return Fail(MissingResourceDir);
      }
      var profile := Profile(name, resdir.value, suffixes);
      if present {
        if name in Names(config.profiles) {
          return Fail(DuplicateName(name));
        }
        AddKeepsWellFormed(config, profile);
        config := config.(profiles := config.profiles + [profile]);
        config := config.(activeProfile := name);
      } else {
        FirstProfileWellFormed(profile);
        config := Config(name, [profile]);
        present := true;
      }
      writes := writes + 1;
      r := Pass;
    }

    /** `profile --delete NAME`. */
    method DeleteProfile(name: string) returns (r: Outcome<StoreError>)
      modifies this
      ensures !old(present) ==> r == Fail(NotInitialized) && unchanged(this)
      ensures old(present) && name == old(config).activeProfile ==>
        r == Fail(CannotDeleteActive(name)) && unchanged(this)
      ensures old(present) && name != old(config).activeProfile ==>
        r == Pass && present && writes == old(writes) + 1 &&
        config == old(config).(profiles := WithoutName(old(config).profiles, name))
      ensures old(Valid()) ==> Valid()
    {
      if !present {
        return Fail(NotInitialized);
      }
      if name == config.activeProfile {
        return Fail(CannotDeleteActive(name));
      }
      if WellFormed(config) {
        DeleteKeepsWellFormed(config, name);
      }
      config := config.(profiles := WithoutName(config.profiles, name));
      writes := writes + 1;
      r := Pass;
    }

    /** `profile --list`: the names in store order. */
    method ListProfiles() returns (r: Result<seq<string>, StoreError>)
      ensures !present ==> r == Failure(NotInitialized)
      ensures present ==> r.Success? && |r.value| == |config.profiles|
      ensures present ==> forall i :: 0 <= i < |r.value| ==> r.value[i] == config.profiles[i].name
    {
      if !present {
        return Failure(NotInitialized);
      }
      r := Success(Names(config.profiles));
    }

    /** `set_profile_as_active`: the file is rewritten only when the active name changes. */
    method SetActive(p: Profile) returns (rewritten: bool)
      modifies this
      ensures rewritten == (old(config).activeProfile != p.name)
      ensures config == old(config).(activeProfile := p.name)
      ensures present == old(present)
      ensures writes == if rewritten then old(writes) + 1 else old(writes)
      ensures old(Valid()) && p.name in Names(old(config).profiles) ==> Valid()
    {
      rewritten := config.activeProfile != p.name;
      if rewritten {
        config := config.(activeProfile := p.name);
        writes := writes + 1;
      }
    }

    /**
     * The profile resolution at the start of `unpack`: the named profile,
     * which also becomes active, or else the active one.
     */
    method ResolveProfile(requested: Option<string>) returns (r: Result<Profile, StoreError>)
      modifies this
      ensures !old(present) ==> r == Failure(NotInitialized) && unchanged(this)
      ensures old(present) && requested.Some? ==>
        match FindByName(old(config).profiles, requested.value)
        case None => r == Failure(ProfileNotFound(requested.value)) && unchanged(this)
        case Some(p) =>
          r == Success(p) && config == old(config).(activeProfile := p.name) && present &&
          writes == if old(config).activeProfile != p.name then old(writes) + 1 else old(writes)
      ensures old(present) && requested.None? ==>
        unchanged(this) &&
        r == match DefaultProfile(config)
             case None => Failure(ActiveProfileMissing(config.activeProfile))
             case Some(p) => Success(p)
      ensures old(Valid()) ==> Valid()
      ensures old(Valid()) && old(present) && requested.None? ==> r.Success?
    {
      if !present {
        return Failure(NotInitialized);
      }
      if requested.Some? {
        var found := FindByName(config.profiles, requested.value);
        if found.None? {
          return Failure(ProfileNotFound(requested.value));
        }
        var _ := SetActive(found.value);
        r := Success(found.value);
        assert found.value.name in Names(config.profiles) by {
          var i :| 0 <= i < |config.profiles| && config.profiles[i] == found.value;
          assert Names(config.profiles)[i] == found.value.name;
        }
      } else {
        var found := DefaultProfile(config);
        if found.None? {
          return Failure(ActiveProfileMissing(config.activeProfile));
        }
        r := Success(found.value);
      }
    }
  }
}
