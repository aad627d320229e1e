/**
 * BlueJ's TeamSettingsController: the team settings of one project, kept in
 * the project's team.defs properties, with the global BlueJ configuration
 * (bluej.properties / bluej.defs) as fallback.  It reads the settings for a
 * teamwork provider, writes changed settings back, adds the default ignore
 * patterns to a new team.defs and lists the ignore patterns.
 *
 * The global configuration is a map that this controller reads and writes.
 * The provider list and the provider of the settings dialog are values
 * given from outside; file reading and writing, the repository and the
 * dialogs are not part of this model.
 */
module TeamSettings {
  import opened Strings

  /** A teamwork provider: its name and whether its settings need a name and an e-mail address. */
  datatype Provider = Provider(name: string, needsName: bool, needsEmail: bool)

  /**
   * The team settings; protocol, server, prefix, password and the user's
   * name and e-mail may be null (None).
   */
  datatype TeamSettingsValue = TeamSettingsValue(
    provider: Provider,
    protocol: Option<string>,
    server: Option<string>,
    prefix: Option<string>,
    group: string,
    user: string,
    password: Option<string>,
    yourName: Option<string>,
    yourEmail: Option<string>)

  const UserKey := "bluej.teamsettings.user"
  const YourNameKey := "bluej.teamsettings.yourName"
  const YourEmailKey := "bluej.teamsettings.yourEmail"
  const GroupKey := "bluej.teamsettings.groupname"
  const ProviderKey := "bluej.teamsettings.vcs"
  const UseAsDefaultKey := "bluej.teamsettings.useAsDefault"

  /** Keys under which the old CVS support kept its ignore patterns. */
  const LegacyIgnorePrefix := "bluej.teamsettings.cvs.ignore"
  /** Keys under which ignore patterns are kept now. */
  const IgnorePrefix := "bluej.teamsettings.ignore"

  /** The eight patterns a new team.defs gets (regular expressions, one backslash each). */
  const DefaultIgnorePatterns: map<string, string> := map[
    "bluej.teamsettings.ignore1" := ".*\\.class",
    "bluej.teamsettings.ignore2" := "bluej\\.pkh",
    "bluej.teamsettings.ignore3" := "team\\.defs",
    "bluej.teamsettings.ignore4" := ".*\\.ctxt",
    "bluej.teamsettings.ignore5" := ".*\\~",
    "bluej.teamsettings.ignore6" := ".*\\#",
    "bluej.teamsettings.ignore7" := ".*\\#backup",
    "bluej.teamsettings.ignore8" := "\\.DS_Store"]

  /**
   * getPropString: the project's value for the key if it has one, else the
   * global configuration's, else null (None).
   */
  function PropString(project: map<string, string>, config: map<string, string>, key: string): (r: Option<string>)
    ensures r.Some? ==> r.value in project.Values + config.Values
  {
    if key in project then Some(project[key])
    else if key in config then Some(config[key])
    else None
  }

  /** A value in the project hides the configuration's value for the same key, whatever it is. */
  lemma ProjectValueWins(project: map<string, string>, c1: map<string, string>, c2: map<string, string>, key: string)
    requires key in project
    ensures PropString(project, c1, key) == PropString(project, c2, key) == Some(project[key])
  {
  }

  /** Without a project value the configuration decides, and null comes only when both lack the key. */
  lemma FallsBackToConfig(project: map<string, string>, config: map<string, string>, key: string)
    ensures key !in project ==> PropString(project, config, key) == PropString(map[], config, key)
    ensures PropString(project, config, key).None? <==> key !in project && key !in config
  {
  }

  /** The value of an optional string, "" for null. */
  function OrEmpty(o: Option<string>): string
  {
    if o.Some? then o.value else ""
  }

  /** Whether getIgnoreFiles lists the value under this key. */
  predicate IsIgnoreKey(key: string)
  {
    StartsWith(key, LegacyIgnorePrefix) || StartsWith(key, IgnorePrefix)
  }

  /** No key has both prefixes, so getIgnoreFiles adds each value at most once. */
  lemma IgnorePrefixesDisjoint(key: string)
    ensures !(StartsWith(key, LegacyIgnorePrefix) && StartsWith(key, IgnorePrefix))
  {
    if StartsWith(key, LegacyIgnorePrefix) {
      assert key[19] == LegacyIgnorePrefix[19] == 'c';
    }
  }

  /**
   * A listing of the ignore patterns of `project`: `keys` are the ignore
   * keys of the project, each once, in some order, and `patterns` their
   * values in that order.
   */
  ghost predicate IgnoreListing(project: map<string, string>, patterns: seq<string>, keys: seq<string>)
  {
    |patterns| == |keys| &&
    (forall i :: 0 <= i < |keys| ==> keys[i] in project && patterns[i] == project[keys[i]]) &&
    (forall i, j :: 0 <= i < j < |keys| ==> keys[i] != keys[j]) &&
    (forall k :: k in keys <==> k in project && IsIgnoreKey(k))
  }

  /** Every default pattern is an ignore key, under the new prefix. */
  lemma DefaultPatternsAreIgnoreKeys()
    ensures forall k :: k in DefaultIgnorePatterns ==> StartsWith(k, IgnorePrefix) && IsIgnoreKey(k)
  {
  }

  /** Once the defaults are added, a listing of the ignore patterns holds all eight of them. */
  lemma DefaultsListed(project: map<string, string>, patterns: seq<string>, keys: seq<string>)
    requires IgnoreListing(project + DefaultIgnorePatterns, patterns, keys)
    ensures forall k :: k in DefaultIgnorePatterns ==> DefaultIgnorePatterns[k] in patterns
  {
    DefaultPatternsAreIgnoreKeys();
    forall k | k in DefaultIgnorePatterns
      ensures DefaultIgnorePatterns[k] in patterns
    {
      assert k in project + DefaultIgnorePatterns;
      var i :| 0 <= i < |keys| && keys[i] == k;
      assert patterns[i] == (project + DefaultIgnorePatterns)[k];
    }
  }

  /** The last provider in the list whose name equals `name` ignoring case. */
  function LastMatch(providers: seq<Provider>, name: string): (r: Option<Provider>)
    ensures r.Some? ==> r.value in providers && EqualsIgnoreCase(r.value.name, name)
  {
    if providers == [] then None
    else if EqualsIgnoreCase(providers[|providers| - 1].name, name) then Some(providers[|providers| - 1])
    else LastMatch(providers[..|providers| - 1], name)
  }

  /** The provider found is one whose name matches, and no later one matches; none is found only when none matches. */
  lemma {:induction false} LastMatchExactly(providers: seq<Provider>, name: string)
    ensures LastMatch(providers, name).None? <==>
              forall i :: 0 <= i < |providers| ==> !EqualsIgnoreCase(providers[i].name, name)
    ensures LastMatch(providers, name).Some? ==>
              exists i :: 0 <= i < |providers| && providers[i] == LastMatch(providers, name).value &&
                EqualsIgnoreCase(providers[i].name, name) &&
                forall j :: i < j < |providers| ==> !EqualsIgnoreCase(providers[j].name, name)
    decreases |providers|
  {
    if providers != [] {
      var n := |providers| - 1;
      LastMatchExactly(providers[..n], name);
      if !EqualsIgnoreCase(providers[n].name, name) {
        MatchPastFront(providers, name, LastMatch(providers[..n], name));
      }
    }
  }

  /** A last provider that does not match leaves the match of the ones before it. */
  lemma MatchPastFront(providers: seq<Provider>, name: string, m: Option<Provider>)
    requires providers != [] && !EqualsIgnoreCase(providers[|providers| - 1].name, name)
    requires var front := providers[..|providers| - 1];
             (m.None? <==> forall i :: 0 <= i < |front| ==> !EqualsIgnoreCase(front[i].name, name)) &&
             (m.Some? ==> exists i :: 0 <= i < |front| && front[i] == m.value && EqualsIgnoreCase(front[i].name, name) &&
                            forall j :: i < j < |front| ==> !EqualsIgnoreCase(front[j].name, name))
    ensures m.None? <==> forall i :: 0 <= i < |providers| ==> !EqualsIgnoreCase(providers[i].name, name)
    ensures m.Some? ==>
              exists i :: 0 <= i < |providers| && providers[i] == m.value && EqualsIgnoreCase(providers[i].name, name) &&
                forall j :: i < j < |providers| ==> !EqualsIgnoreCase(providers[j].name, name)
  {
    var n := |providers| - 1;
    var front := providers[..n];
    assert forall i :: 0 <= i < n ==> providers[i] == front[i];
    if m.Some? {
      var i :| 0 <= i < n && front[i] == m.value && EqualsIgnoreCase(front[i].name, name) &&
        forall j :: i < j < n ==> !EqualsIgnoreCase(front[j].name, name);
      assert providers[i] == front[i];
    }
  }

  /** A provider that is the only one of its name (ignoring case) is the one its name finds. */
  lemma UniqueMatch(providers: seq<Provider>, p: Provider, name: string)
    requires p in providers && EqualsIgnoreCase(p.name, name)
    requires forall q :: q in providers && EqualsIgnoreCase(q.name, name) ==> q == p
    ensures LastMatch(providers, name) == Some(p)
  {
    LastMatchExactly(providers, name);
  }

  /** The prefix of a provider's keys: "bluej.teamsettings." + the lower-cased provider name + ".". */
  function KeyBase(providerName: string): (base: string)
    ensures StartsWith(base, "bluej.teamsettings.") && |base| == |providerName| + 20
  {
    "bluej.teamsettings." + ToLower(providerName) + "."
  }

  /** Provider names that differ only in case share their keys. */
  lemma KeyBaseIgnoresCase(a: string, b: string)
    ensures EqualsIgnoreCase(a, b) <==> KeyBase(a) == KeyBase(b)
  {
    if KeyBase(a) == KeyBase(b) {
      assert ToLower(a) == KeyBase(a)[19..|KeyBase(a)| - 1];
      assert ToLower(b) == KeyBase(b)[19..|KeyBase(b)| - 1];
    }
  }

  /** initProviderSettings: the provider's prefix, server and protocol, read under its key base. */
  function ProviderSettings(project: map<string, string>, config: map<string, string>,
                            user: string, group: string, password: Option<string>, provider: Provider): TeamSettingsValue
  {
    var base := KeyBase(provider.name);
    TeamSettingsValue(provider,
      PropString(project, config, base + "protocol"),
      PropString(project, config, base + "server"),
      PropString(project, config, base + "repositoryPrefix"),
      group, user, password, None, None)
  }

  /** Two providers whose names differ only in case read the same settings. */
  lemma ProviderSettingsIgnoreCase(project: map<string, string>, config: map<string, string>,
                                   user: string, group: string, password: Option<string>, p: Provider, q: Provider)
    requires EqualsIgnoreCase(p.name, q.name)
    ensures ProviderSettings(project, config, user, group, password, p)
         == ProviderSettings(project, config, user, group, password, q).(provider := p)
  {
    KeyBaseIgnoresCase(p.name, q.name);
  }

  /**
   * initSettings: user, name, e-mail and group ("" when missing), and the
   * provider named by "bluej.teamsettings.vcs"; with a provider the
   * settings are read for it, without one `current` is kept.
   */
  function InitialSettings(project: map<string, string>, config: map<string, string>, providers: seq<Provider>,
                           password: Option<string>, current: Option<TeamSettingsValue>): (r: Option<TeamSettingsValue>)
    ensures r != current ==> r.Some? && r.value.password == password && r.value.provider in providers
  {
    var user := OrEmpty(PropString(project, config, UserKey));
    var yourName := OrEmpty(PropString(project, config, YourNameKey));
    var yourEmail := OrEmpty(PropString(project, config, YourEmailKey));
    var group := OrEmpty(PropString(project, config, GroupKey));
    var providerName := PropString(project, config, ProviderKey);
    var provider := if providerName.Some? then LastMatch(providers, providerName.value) else None;
    if provider.Some? then
      Some(ProviderSettings(project, config, user, group, password, provider.value)
             .(yourName := Some(yourName), yourEmail := Some(yourEmail)))
    else current
  }

  /** Without a provider name, or with one no provider has, the settings stay as they were; otherwise some are read. */
  lemma NoProviderKeepsSettings(project: map<string, string>, config: map<string, string>, providers: seq<Provider>,
                                password: Option<string>, current: Option<TeamSettingsValue>)
    ensures var name := PropString(project, config, ProviderKey);
            var none := name.None? ||
              forall i :: 0 <= i < |providers| ==> !EqualsIgnoreCase(providers[i].name, name.value);
            (none ==> InitialSettings(project, config, providers, password, current) == current) &&
            (!none ==> InitialSettings(project, config, providers, password, current).Some?)
  {
    var providerName := PropString(project, config, ProviderKey);
    if providerName.Some? {
      LastMatchExactly(providers, providerName.value);
    }
  }

  /** With a provider found, the settings are for the last matching provider, and missing values read as "". */
  lemma InitialSettingsFound(project: map<string, string>, config: map<string, string>, providers: seq<Provider>,
                             password: Option<string>, current: Option<TeamSettingsValue>, name: string)
    requires PropString(project, config, ProviderKey) == Some(name)
    requires exists i :: 0 <= i < |providers| && EqualsIgnoreCase(providers[i].name, name)
    ensures var r := InitialSettings(project, config, providers, password, current);
            r.Some? && r.value.password == password &&
            (exists i :: 0 <= i < |providers| && providers[i] == r.value.provider &&
               EqualsIgnoreCase(providers[i].name, name) &&
               forall j :: i < j < |providers| ==> !EqualsIgnoreCase(providers[j].name, name)) &&
            (PropString(project, config, UserKey).None? ==> r.value.user == "") &&
            (PropString(project, config, GroupKey).None? ==> r.value.group == "") &&
            (PropString(project, config, YourNameKey).None? ==> r.value.yourName == Some("")) &&
            (PropString(project, config, YourEmailKey).None? ==> r.value.yourEmail == Some(""))
  {
    LastMatchExactly(providers, name);
  }

  /** What updateSettings needs of new settings: the values it stores are not null. */
  predicate Storable(s: TeamSettingsValue, dialog: Provider)
  {
    s.server.Some? && s.prefix.Some? && s.protocol.Some? &&
    (dialog.needsName ==> s.yourName.Some?) && (dialog.needsEmail ==> s.yourEmail.Some?)
  }

  /**
   * The project properties after updateSettings(s, ...): the user, the name
   * and e-mail when the dialog's provider needs them, the lower-cased
   * provider name, the provider's server, prefix and protocol, and the group.
   */
  function UpdatedProperties(project: map<string, string>, s: TeamSettingsValue, dialog: Provider): (r: map<string, string>)
    requires Storable(s, dialog)
    ensures project.Keys + {UserKey, ProviderKey, GroupKey} <= r.Keys && r[GroupKey] == s.group
  {
    var base := KeyBase(s.provider.name);
    var p1 := project[UserKey := s.user];
    var p2 := if dialog.needsName then p1[YourNameKey := s.yourName.value] else p1;
    var p3 := if dialog.needsEmail then p2[YourEmailKey := s.yourEmail.value] else p2;
    var p4 := p3[ProviderKey := ToLower(s.provider.name)];
    var p5 := p4[base + "server" := s.server.value][base + "repositoryPrefix" := s.prefix.value];
    p5[base + "protocol" := s.protocol.value][GroupKey := s.group]
  }

  /**
   * The global configuration after updateSettings(s, useAsDefault): the
   * use-as-default flag, and when it is set the provider name, the user, the
   * name when needed, and the e-mail when needed or else the server, prefix,
   * group and protocol.
   */
  function UpdatedConfig(config: map<string, string>, s: TeamSettingsValue, dialog: Provider, useAsDefault: bool): (r: map<string, string>)
    requires Storable(s, dialog)
    ensures config.Keys + {UseAsDefaultKey} <= r.Keys
    ensures useAsDefault ==> ProviderKey in r && UserKey in r
  {
    var base := KeyBase(s.provider.name);
    var c1 := config[UseAsDefaultKey := if useAsDefault then "true" else "false"];
    if !useAsDefault then c1
    else
      var c2 := c1[ProviderKey := ToLower(s.provider.name)][UserKey := s.user];
      var c3 := if dialog.needsName then c2[YourNameKey := s.yourName.value] else c2;
      if dialog.needsEmail then c3[YourEmailKey := s.yourEmail.value]
      else c3[base + "server" := s.server.value][base + "repositoryPrefix" := s.prefix.value]
             [GroupKey := s.group][base + "protocol" := s.protocol.value]
  }

  /** The provider is stored by its lower-cased name, in the project and, as default, in the configuration. */
  lemma ProviderStoredLowerCase(project: map<string, string>, config: map<string, string>,
                                s: TeamSettingsValue, dialog: Provider, useAsDefault: bool)
    requires Storable(s, dialog)
    ensures UpdatedProperties(project, s, dialog)[ProviderKey] == ToLower(s.provider.name)
    ensures useAsDefault ==> UpdatedConfig(config, s, dialog, useAsDefault)[ProviderKey] == ToLower(s.provider.name)
    ensures UpdatedConfig(config, s, dialog, useAsDefault)[UseAsDefaultKey] == if useAsDefault then "true" else "false"
  {
    var base := KeyBase(s.provider.name);
    // the keys written after the provider key are longer than it, and none ends as the flag's key does
    assert (base + "server")[|base| + 5] == 'r' && (base + "repositoryPrefix")[|base| + 15] == 'x';
    assert (base + "protocol")[|base| + 7] == 'l' && UseAsDefaultKey[|UseAsDefaultKey| - 1] == 't';
  }

  /** Neither the project properties nor the configuration depend on the password: it is never stored. */
  lemma PasswordNeverStored(project: map<string, string>, config: map<string, string>,
                            s: TeamSettingsValue, dialog: Provider, useAsDefault: bool, other: Option<string>)
    requires Storable(s, dialog)
    ensures UpdatedProperties(project, s, dialog) == UpdatedProperties(project, s.(password := other), dialog)
    ensures UpdatedConfig(config, s, dialog, useAsDefault) == UpdatedConfig(config, s.(password := other), dialog, useAsDefault)
  {
  }

  /**
   * Updating the settings and reading them back gives the same settings,
   * when no other provider has the same name ignoring case; the name and
   * e-mail come back when the dialog's provider stored them.
   */
  lemma UpdateThenInit(project: map<string, string>, config: map<string, string>, providers: seq<Provider>,
                       s: TeamSettingsValue, dialog: Provider, current: Option<TeamSettingsValue>)
    requires Storable(s, dialog)
    requires s.provider in providers
    requires forall q :: q in providers && EqualsIgnoreCase(q.name, s.provider.name) ==> q == s.provider
    ensures var r := InitialSettings(UpdatedProperties(project, s, dialog), config, providers, s.password, current);
            r.Some? && r.value.(yourName := s.yourName, yourEmail := s.yourEmail) == s &&
            (dialog.needsName ==> r.value.yourName == s.yourName) &&
            (dialog.needsEmail ==> r.value.yourEmail == s.yourEmail)
  {
    var updated := UpdatedProperties(project, s, dialog);
    var base := KeyBase(s.provider.name);
    var lower := ToLower(s.provider.name);
    KeyStoredValues(project, s, dialog);
    ToLowerIdempotent(s.provider.name);
    assert EqualsIgnoreCase(s.provider.name, lower);
    forall q | q in providers && EqualsIgnoreCase(q.name, lower)
      ensures q == s.provider
    {
      assert EqualsIgnoreCase(q.name, s.provider.name);
    }
    UniqueMatch(providers, s.provider, lower);
  }

  /** Each value updateSettings stores is what a later read of its key gives. */
  lemma KeyStoredValues(project: map<string, string>, s: TeamSettingsValue, dialog: Provider)
    requires Storable(s, dialog)
    ensures var updated := UpdatedProperties(project, s, dialog);
            var base := KeyBase(s.provider.name);
            updated[UserKey] == s.user && updated[GroupKey] == s.group &&
            updated[ProviderKey] == ToLower(s.provider.name) &&
            updated[base + "server"] == s.server.value &&
            updated[base + "repositoryPrefix"] == s.prefix.value &&
            updated[base + "protocol"] == s.protocol.value &&
            (dialog.needsName ==> updated[YourNameKey] == s.yourName.value) &&
            (dialog.needsEmail ==> updated[YourEmailKey] == s.yourEmail.value)
  {
    ProviderKeysDistinct(KeyBase(s.provider.name));
  }

  /**
   * The keys under a provider's key base differ from each other and from
   * the fixed keys: by length or by their last character.
   */
  lemma ProviderKeysDistinct(base: string)
    requires StartsWith(base, "bluej.teamsettings.") && |base| >= 20 && base[|base| - 1] == '.'
    ensures var server, prefix, protocol := base + "server", base + "repositoryPrefix", base + "protocol";
            server != prefix && server != protocol && prefix != protocol &&
            GroupKey !in {server, prefix, protocol} && ProviderKey !in {server, prefix, protocol} &&
            UserKey !in {server, prefix, protocol} && YourNameKey !in {server, prefix, protocol} &&
            YourEmailKey !in {server, prefix, protocol}
  {
    var server, prefix, protocol := base + "server", base + "repositoryPrefix", base + "protocol";
    assert server[|server| - 1] == 'r' && prefix[|prefix| - 1] == 'x' && protocol[|protocol| - 1] == 'l';
    assert GroupKey[|GroupKey| - 1] == 'e' && ProviderKey[|ProviderKey| - 1] == 's';
    assert |server| >= 26 && |prefix| >= 36 && |protocol| >= 28;
    assert UserKey[|UserKey| - 1] == 'r' && |UserKey| < 26;
    assert YourNameKey[|YourNameKey| - 1] == 'e';
    assert YourEmailKey[|YourEmailKey| - 1] == 'l' && |YourEmailKey| == 28;
    assert YourEmailKey[19] == 'y' && (|base| == 20 ==> protocol[19] == '.');
  }

  class TeamSettingsController {
    /** The project's team settings (team.defs). */
    var teamProperties: map<string, string>
    /** The global configuration's user properties, as this controller reads and writes them. */
    var config: map<string, string>
    /** The settings; null until read or set. */
    var settings: Option<TeamSettingsValue>
    /** The password, kept only in memory. */
    var password: Option<string>
    /** The teamwork providers that loaded. */
    const providers: seq<Provider>

    /** TeamSettingsController(projectDir): no project properties, no settings, no password. */
    constructor (providers: seq<Provider>, config: map<string, string>)
      ensures teamProperties == map[] && this.config == config && this.providers == providers
      ensures settings.None? && password.None?
    {
      this.providers := providers;
      this.config := config;
      teamProperties := map[];
      settings := None;
      password := None;
    }

    /** setPropString: the project property under `key` becomes `value`. */
    method SetPropString(key: string, value: string)
      modifies this`teamProperties
      ensures teamProperties == old(teamProperties)[key := value]
      ensures PropString(teamProperties, config, key) == Some(value)
    {
      teamProperties := teamProperties[key := value];
    }

    /** addIgnoreFilePatterns: put the eight default patterns under ignore1 .. ignore8. */
    method AddIgnoreFilePatterns()
      modifies this`teamProperties
      ensures teamProperties == old(teamProperties) + DefaultIgnorePatterns
    {
      teamProperties := teamProperties + DefaultIgnorePatterns;
    }

    /**
     * writeToProject's change to the properties: with a project directory
     * whose team.defs does not exist yet, the default ignore patterns are
     * added before the properties are stored.
     */
    method WriteToProject(hasProjectDir: bool, cfgFileExists: bool)
      modifies this`teamProperties
      ensures teamProperties == if hasProjectDir && !cfgFileExists then old(teamProperties) + DefaultIgnorePatterns
                                else old(teamProperties)
    {
      if !hasProjectDir {
        return;
      }
      if !cfgFileExists {
        AddIgnoreFilePatterns();
      }
    }

    /**
     * getIgnoreFiles: the values of the ignore keys, in the order the keys
     * are visited (`keys`, which the map leaves unspecified).
     */
    method GetIgnoreFiles() returns (patterns: seq<string>, ghost keys: seq<string>)
      ensures IgnoreListing(teamProperties, patterns, keys)
    {
      var todo := teamProperties.Keys;
      patterns, keys := [], [];
      while todo != {}
        invariant todo <= teamProperties.Keys
        invariant |patterns| == |keys|
        invariant forall i :: 0 <= i < |keys| ==> keys[i] in teamProperties && patterns[i] == teamProperties[keys[i]]
        invariant forall i, j :: 0 <= i < j < |keys| ==> keys[i] != keys[j]
        invariant forall k :: k in keys ==> k !in todo && IsIgnoreKey(k)
        invariant forall k :: k in teamProperties && k !in todo && IsIgnoreKey(k) ==> k in keys
        decreases |todo|
      {
        var key :| key in todo;
        IgnorePrefixesDisjoint(key);
        if StartsWith(key, LegacyIgnorePrefix) {
          patterns, keys := patterns + [teamProperties[key]], keys + [key];
        }
        if StartsWith(key, IgnorePrefix) {
          patterns, keys := patterns + [teamProperties[key]], keys + [key];
        }
        todo := todo - {key};
      }
    }

    /** initSettings: read the settings for the provider named in the properties, if one has that name. */
    method InitSettings()
      modifies this`settings
      ensures settings == InitialSettings(teamProperties, config, providers, password, old(settings))
    {
      var user := OrEmpty(PropString(teamProperties, config, UserKey));
      var yourName := OrEmpty(PropString(teamProperties, config, YourNameKey));
      var yourEmail := OrEmpty(PropString(teamProperties, config, YourEmailKey));
      var group := OrEmpty(PropString(teamProperties, config, GroupKey));
      var provider: Option<Provider> := None;
      var providerName := PropString(teamProperties, config, ProviderKey);
      if providerName.Some? {
        for index := 0 to |providers|
          invariant provider == LastMatch(providers[..index], providerName.value)
        {
          assert providers[..index + 1][..index] == providers[..index];
          if EqualsIgnoreCase(providers[index].name, providerName.value) {
            provider := Some(providers[index]);
          }
        }
        assert providers[..|providers|] == providers;
      }
      if provider.Some? {
        var s := ProviderSettings(teamProperties, config, user, group, password, provider.value);
        settings := Some(s.(yourName := Some(yourName), yourEmail := Some(yourEmail)));
      }
    }

    /** hasPasswordString: whether a password is held. */
    function HasPasswordString(): (b: bool)
      reads this
      ensures b <==> password.Some?
    {
      password.Some?
    }

    /**
     * updateSettings(newSettings, useAsDefault), with the dialog's provider
     * deciding whether the name and e-mail are stored: the settings and the
     * password are replaced, and the keys are written to the project and,
     * as defaults, to the configuration.
     */
    method UpdateSettings(newSettings: TeamSettingsValue, useAsDefault: bool, dialog: Provider)
      requires Storable(newSettings, dialog)
      modifies this`settings, this`teamProperties, this`config, this`password
      ensures settings == Some(newSettings) && password == newSettings.password
      ensures teamProperties == UpdatedProperties(old(teamProperties), newSettings, dialog)
      ensures config == UpdatedConfig(old(config), newSettings, dialog, useAsDefault)
      ensures HasPasswordString() <==> newSettings.password.Some?
    {
      settings := Some(newSettings);
      StoreProjectKeys(newSettings, dialog);
      var providerName := ToLower(newSettings.provider.name);
      var keyBase := "bluej.teamsettings." + providerName + ".";
      var s := newSettings;
      config := config[UseAsDefaultKey := if useAsDefault then "true" else "false"];
      password := s.password;
      if useAsDefault {
        config := config[ProviderKey := providerName][UserKey := s.user];
        if dialog.needsName {
          config := config[YourNameKey := s.yourName.value];
        }
        if dialog.needsEmail {
          config := config[YourEmailKey := s.yourEmail.value];
        } else {
          config := config[keyBase + "server" := s.server.value][keyBase + "repositoryPrefix" := s.prefix.value];
          config := config[GroupKey := s.group][keyBase + "protocol" := s.protocol.value];
        }
      }
    }

    /** The project half of updateSettings: the keys it writes with setPropString, in order. */
    method StoreProjectKeys(s: TeamSettingsValue, dialog: Provider)
      requires Storable(s, dialog)
      modifies this`teamProperties
      ensures teamProperties == UpdatedProperties(old(teamProperties), s, dialog)
    {
      SetPropString(UserKey, s.user);
      if dialog.needsName {
        SetPropString(YourNameKey, s.yourName.value);
      }
      if dialog.needsEmail {
        SetPropString(YourEmailKey, s.yourEmail.value);
      }
      var providerName := ToLower(s.provider.name);
      SetPropString(ProviderKey, providerName);
      var keyBase := "bluej.teamsettings." + providerName + ".";
      SetPropString(keyBase + "server", s.server.value);
      SetPropString(keyBase + "repositoryPrefix", s.prefix.value);
      SetPropString(keyBase + "protocol", s.protocol.value);
      SetPropString(GroupKey, s.group);
    }
  }
}
