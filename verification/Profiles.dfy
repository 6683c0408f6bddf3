/** The CLI configuration: a named profile overlaid on the top-level settings, and `--api-url` for one run. */
module Profiles {
  import opened Wrappers

  const DEFAULT_PROFILE := "default"

  /** Settings a profile can carry. */
  datatype Profile = Profile(apiUrl: Option<string>, token: Option<string>, defaultFormat: Option<string>, serverUrl: Option<string>,
                             serverToken: Option<string>, serverRefresh: Option<string>, serverCsrf: Option<string>)

  const NO_SETTINGS := Profile(None, None, None, None, None, None, None)

  datatype Connection = Connection(name: string, uri: string, protocol: string, createdAt: string)

  /** The value of a configuration. As stored in the file it has neither overlay nor override. */
  datatype Settings = Settings(top: Profile, connections: seq<Connection>, currentProfile: Option<string>, profiles: map<string, Profile>,
                               overlay: Option<(string, Profile)>, apiOverride: Option<(string, Option<string>)>)

  predicate IsFile(s: Settings) {
    s.overlay.None? && s.apiOverride.None?
  }

  /** The settings of a profile, empty when there is none yet. */
  function SettingsOf(s: Settings, name: string): Profile {
    Find(s.profiles, name).GetOr(NO_SETTINGS)
  }

  function Activated(s: Settings, name: string): Settings {
    s.(top := SettingsOf(s, name), overlay := Some((name, s.top)))
  }

  function Overridden(s: Settings, url: string): Settings {
    s.(top := s.top.(apiUrl := Some(url)), apiOverride := Some((url, s.top.apiUrl)))
  }

  /** The profile a run uses: the one asked for, else the file's current one; `None` is the top level. */
  function Chosen(file: Settings, asked: Option<string>): Option<string> {
    var name := if asked.Some? && asked.value != "" then asked else file.currentProfile;
    if name == Some(DEFAULT_PROFILE) then None else name
  }

  function Loaded(file: Settings, asked: Option<string>, url: Option<string>): Settings {
    var s := match Chosen(file, asked) case Some(name) => Activated(file, name) case None => file;
    match url
    case Some(u) => Overridden(s, u)
    case None => s
  }

  /** The profile's own `api_url` comes back unless it is no longer the one of the command line. */
  function WithoutOverride(s: Settings): Profile {
    match s.apiOverride
    case Some((url, file)) => if s.top.apiUrl == Some(url) then s.top.(apiUrl := file) else s.top
    case None => s.top
  }

  /** What is written to the file. */
  function Stored(s: Settings): Settings {
    match s.overlay
    case Some((name, top)) =>
      s.(top := top, profiles := s.profiles[name := WithoutOverride(s)], overlay := None, apiOverride := None)
    case None => s.(top := WithoutOverride(s), apiOverride := None)
  }

  /** The configuration as the commands change it. */
  class CliConfig {
    var apiUrl: Option<string>
    var token: Option<string>
    var defaultFormat: Option<string>
    var serverUrl: Option<string>
    var serverToken: Option<string>
    var serverRefresh: Option<string>
    var serverCsrf: Option<string>
    var connections: seq<Connection>
    var currentProfile: Option<string>
    var profiles: map<string, Profile>
    var overlay: Option<(string, Profile)>
    var apiOverride: Option<(string, Option<string>)>

    function TopLevel(): Profile
      reads this
    {
      Profile(apiUrl, token, defaultFormat, serverUrl, serverToken, serverRefresh, serverCsrf)
    }

    function Value(): Settings
      reads this
    {
      Settings(TopLevel(), connections, currentProfile, profiles, overlay, apiOverride)
    }

    constructor (s: Settings)
      ensures Value() == s
    {
      apiUrl, token, defaultFormat := s.top.apiUrl, s.top.token, s.top.defaultFormat;
      serverUrl, serverToken, serverRefresh, serverCsrf := s.top.serverUrl, s.top.serverToken, s.top.serverRefresh, s.top.serverCsrf;
      connections, currentProfile, profiles := s.connections, s.currentProfile, s.profiles;
      overlay, apiOverride := s.overlay, s.apiOverride;
    }

    /** Load: the profile first, then the URL of the command line on top of it. */
    constructor Load(file: Settings, asked: Option<string>, url: Option<string>)
      requires IsFile(file)
      ensures Value() == Loaded(file, asked, url)
    {
      apiUrl, token, defaultFormat := file.top.apiUrl, file.top.token, file.top.defaultFormat;
      serverUrl, serverToken, serverRefresh, serverCsrf := file.top.serverUrl, file.top.serverToken, file.top.serverRefresh, file.top.serverCsrf;
      connections, currentProfile, profiles := file.connections, file.currentProfile, file.profiles;
      overlay, apiOverride := None, None;
      new;
      var name := if asked.Some? && asked.value != "" then asked else currentProfile;
      if name.Some? && name.value != DEFAULT_PROFILE {
        Activate(name.value);
      }
      if url.Some? {
        OverrideApiUrl(url.value);
      }
    }

    method SetTopLevel(p: Profile)
      modifies this
      ensures Value() == old(Value()).(top := p)
    {
      apiUrl := p.apiUrl;
      token := p.token;
      defaultFormat := p.defaultFormat;
      serverUrl := p.serverUrl;
      serverToken := p.serverToken;
      serverRefresh := p.serverRefresh;
      serverCsrf := p.serverCsrf;
    }

    method Activate(name: string)
      modifies this
      ensures Value() == Activated(old(Value()), name)
    {
      var stored := TopLevel();
      var p := Find(profiles, name).GetOr(NO_SETTINGS);
      SetTopLevel(p);
      overlay := Some((name, stored));
    }

    method OverrideApiUrl(url: string)
      modifies this
      ensures Value() == Overridden(old(Value()), url)
    {
      var file := apiUrl;
      apiUrl := Some(url);
      apiOverride := Some((url, file));
    }

    /** The file contents: a copy, in which the active profile's fields go back to it. */
    method Store() returns (out: CliConfig)
      ensures fresh(out) && out.Value() == Stored(Value()) && Value() == old(Value())
    {
      out := new CliConfig(Value());
      if overlay.Some? {
        var (name, top) := overlay.value;
        out.profiles := out.profiles[name := TopLevel()];
        out.SetTopLevel(top);
        out.overlay := None;
      }
      if apiOverride.Some? {
        var (url, file) := apiOverride.value;
        if apiUrl == Some(url) {
          if overlay.Some? {
            var name := overlay.value.0;
            var p := Find(out.profiles, name).GetOr(NO_SETTINGS);
            out.profiles := out.profiles[name := p.(apiUrl := file)];
          } else {
            out.apiUrl := file;
          }
        }
      }
      out.apiOverride := None;
    }
  }

  /** The active profile's name. */
  function ProfileName(s: Settings): string {
    match s.overlay
    case Some((name, _)) => name
    case None => DEFAULT_PROFILE
  }

  /** The settings of any profile, whatever is overlaid. */
  function Lookup(s: Settings, name: string): Option<Profile> {
    if name == DEFAULT_PROFILE then Some(match s.overlay case Some((_, top)) => top case None => s.top)
    else if ProfileName(s) == name then Some(s.top)
    else Find(s.profiles, name)
  }

  /** What the commands of a run may do to a loaded configuration: change any overlaid field, the connections and the current profile. */
  function Edited(s: Settings, fields: Profile, connections: seq<Connection>, currentProfile: Option<string>): Settings {
    s.(top := fields, connections := connections, currentProfile := currentProfile)
  }

  /** The URL of the command line is not kept; any other is. */
  function Kept(fields: Profile, url: Option<string>, before: Profile): Profile {
    if url.Some? && fields.apiUrl == url then fields.(apiUrl := before.apiUrl) else fields
  }

  /** Saving after a run changes the profile in use and nothing else: with a named profile the top level and every other
      profile are as in the file, without one all profiles are. */
  lemma SavingChangesOneProfile(file: Settings, asked: Option<string>, url: Option<string>,
                                fields: Profile, connections: seq<Connection>, current: Option<string>)
    requires IsFile(file)
    ensures var saved := Stored(Edited(Loaded(file, asked, url), fields, connections, current));
      && IsFile(saved) && saved.connections == connections && saved.currentProfile == current
      && match Chosen(file, asked)
        case None => saved.profiles == file.profiles && saved.top == Kept(fields, url, file.top)
        case Some(name) =>
          && saved.top == file.top
          && saved.profiles.Keys == file.profiles.Keys + {name}
          && (forall other | other in file.profiles && other != name :: saved.profiles[other] == file.profiles[other])
          && saved.profiles[name] == Kept(fields, url, SettingsOf(file, name))
  {
  }

  /** Loading what was saved gives the edited fields back, as far as they are kept. */
  lemma LoadAfterSave(file: Settings, name: string, url: Option<string>, fields: Profile, connections: seq<Connection>, current: Option<string>)
    requires IsFile(file) && name != "" && name != DEFAULT_PROFILE
    ensures var saved := Stored(Edited(Loaded(file, Some(name), url), fields, connections, current));
      Loaded(saved, Some(name), None).top == Kept(fields, url, SettingsOf(file, name))
  {
    SavingChangesOneProfile(file, Some(name), url, fields, connections, current);
  }

  /** A run that changes nothing leaves the file as it was exactly when it uses no named profile, or one that exists. */
  lemma SaveWithoutEditExactlyWhen(file: Settings, asked: Option<string>, url: Option<string>)
    requires IsFile(file)
    ensures Stored(Loaded(file, asked, url)) == file <==> Chosen(file, asked).None? || Chosen(file, asked).value in file.profiles
  {
    var s := Loaded(file, asked, url);
    assert Edited(s, s.top, s.connections, s.currentProfile) == s;
    SavingChangesOneProfile(file, asked, url, s.top, s.connections, s.currentProfile);
    match Chosen(file, asked)
    case None =>
    case Some(name) =>
      if name in file.profiles {
        assert Stored(s).profiles == file.profiles;
      }
  }

  /** What is stored has nothing left to put back. */
  lemma StoredTwice(s: Settings)
    ensures IsFile(Stored(s)) && Stored(Stored(s)) == Stored(s)
  {
  }

  /** Whatever is overlaid, every profile can still be read as it is in the file, but for the URL of the command line in the
      one in use. */
  lemma LookupSeesTheFile(file: Settings, asked: Option<string>, url: Option<string>, name: string)
    requires IsFile(file)
    ensures var inUse := Chosen(file, asked).GetOr(DEFAULT_PROFILE);
      var inFile := if name != DEFAULT_PROFILE && name == inUse then Some(SettingsOf(file, name)) else Lookup(file, name);
      Lookup(Loaded(file, asked, url), name) ==
        if name == inUse && url.Some? && inFile.Some? then Some(inFile.value.(apiUrl := url)) else inFile
  {
  }

  /** For instance, a run with a profile that does not exist yet leaves an empty one behind. */
  lemma SaveCreatesExample(file: Settings)
    requires IsFile(file) && file.profiles == map[]
    ensures Stored(Loaded(file, Some("x"), None)).profiles == map["x" := NO_SETTINGS]
  {
  }

  /** The profile of a run is the one asked for, or else the file's current one; `default` means the top level. */
  lemma ChosenIs(file: Settings, asked: string)
    ensures Chosen(file, None) == Chosen(file, Some("")) == if file.currentProfile == Some("default") then None else file.currentProfile
    ensures asked != "" ==> Chosen(file, Some(asked)) == if asked == "default" then None else Some(asked)
  {
  }

  /** What is kept of a run's fields: all of them, but the URL of the file for that of the command line. */
  lemma KeptIs(fields: Profile, url: Option<string>, before: Profile)
    ensures var k := Kept(fields, url, before);
      && k.apiUrl == (if url.Some? && fields.apiUrl == url then before.apiUrl else fields.apiUrl)
      && k.token == fields.token && k.defaultFormat == fields.defaultFormat && k.serverUrl == fields.serverUrl
      && k.serverToken == fields.serverToken && k.serverRefresh == fields.serverRefresh && k.serverCsrf == fields.serverCsrf
  {
  }

  /** A run with a profile has the profile's settings, one without has the file's; the URL of the command line goes on top. */
  lemma LoadedIs(file: Settings, asked: Option<string>, url: Option<string>)
    requires IsFile(file)
    ensures var s, name := Loaded(file, asked, url), Chosen(file, asked);
      var own := if name.None? then file.top
        else if name.value in file.profiles then file.profiles[name.value]
        else Profile(None, None, None, None, None, None, None);
      && s.top == (if url.Some? then own.(apiUrl := url) else own)
      && s.profiles == file.profiles && s.connections == file.connections && s.currentProfile == file.currentProfile
  {
  }

  /** In a file as stored, `default` is the top level and any other profile the one of that name. */
  lemma LookupIs(file: Settings, name: string)
    requires IsFile(file)
    ensures Lookup(file, "default") == Some(file.top)
    ensures name != "default" ==> Lookup(file, name) == if name in file.profiles then Some(file.profiles[name]) else None
  {
  }
}
