/** The project configuration value object (`Automation::Config`): an
    attribute record filled through setter names, accessors that fall back
    to defaults, a required attribute that fails when read, the upward
    search for the configuration file, the remote-branch listing check, the
    application-name fallback chain and the per-instance server rules. */
module Configuration {
  import opened Results
  import opened Text

  /** A Ruby value as it can arrive from the parsed configuration file.
      `Obj` stands for any other object (a module, a hash, a number). */
  datatype Value = Nil | Bool(b: bool) | Str(s: string) | Strs(items: seq<string>) | Obj(desc: string)

  /** Ruby truthiness: only `nil` and `false` are false. */
  predicate Truthy(v: Value) {
    !v.Nil? && v != Bool(false)
  }

  /** Ruby's `a || b`. */
  function Or(a: Value, b: Value): Value {
    if Truthy(a) then a else b
  }

  datatype ConfigError =
    | UnknownAttribute(key: string)   // `send("#{key}=")` finds no method
    | MissingRequiredAttribute

  const FileName := ".automation.yml"
  const MissingFileMessage := "Could not find " + FileName

  /** The collaborator `initialize` installs before applying attributes. */
  const DefaultCli := Obj("Automation::CLI")

  /** The attributes that have a setter (`attr_accessor`). */
  const Setters: set<string> := {
    "cli", "branches_to_keep", "cloud_ngin_app_name", "deploy_branch",
    "deploy_environments", "deploy_methods", "engine_yard_app_name", "github_repo"
  }

  /** Keys for which `"#{key}="` names a one-argument method every object
      inherits rather than a setter: `==`, `===` and `!=`. Sending one
      compares and assigns nothing. */
  const ComparisonKeys: set<string> := {"=", "==", "!"}

  /** `send("#{key}=", value)` finds a method for `key`. */
  predicate Accepted(key: string) {
    key in Setters || key in ComparisonKeys
  }

  /** The instance variables of one `Config` object. */
  datatype Config = Config(ivars: map<string, Value>)

  /** Reading an instance variable; an unset one reads as `nil`. */
  function Ivar(c: Config, name: string): Value {
    if name in c.ivars then c.ivars[name] else Nil
  }

  /** Every key of `attrs` is accepted. */
  predicate AllKnown(attrs: seq<(string, Value)>) {
    forall i :: 0 <= i < |attrs| ==> Accepted(attrs[i].0)
  }

  /** `attrs[i]` is the first entry whose key is not accepted. */
  predicate FirstUnknown(attrs: seq<(string, Value)>, i: int) {
    && 0 <= i < |attrs|
    && !Accepted(attrs[i].0)
    && AllKnown(attrs[..i])
  }

  /** `attrs[i]` is the last entry that assigns `key`. */
  predicate LastAssigned(attrs: seq<(string, Value)>, key: string, i: int) {
    && 0 <= i < |attrs|
    && attrs[i].0 == key
    && forall j :: i < j < |attrs| ==> attrs[j].0 != key
  }

  predicate Mentions(attrs: seq<(string, Value)>, key: string) {
    exists i :: 0 <= i < |attrs| && attrs[i].0 == key
  }

  /** A mentioned key has a last assignment. */
  lemma {:induction false} MentionedIsLastAssigned(attrs: seq<(string, Value)>, key: string)
    requires Mentions(attrs, key)
    ensures exists i :: LastAssigned(attrs, key, i)
    decreases |attrs|
  {
    var n := |attrs| - 1;
    if attrs[n].0 == key {
      assert LastAssigned(attrs, key, n);
    } else {
      var init := attrs[..n];
      var w :| 0 <= w < |attrs| && attrs[w].0 == key;
      assert init[w].0 == key;
      MentionedIsLastAssigned(init, key);
      var i :| LastAssigned(init, key, i);
      assert LastAssigned(attrs, key, i);
    }
  }

  /** No truthy value was last supplied for `key`: it was never supplied,
      or its last value is `nil` or `false` (a blank YAML entry). */
  predicate NoTruthyValue(attrs: seq<(string, Value)>, key: string) {
    forall i :: 0 <= i < |attrs| && LastAssigned(attrs, key, i) ==> !Truthy(attrs[i].1)
  }

  /** One `self.send("#{key}=", value)`: a setter stores the value, an
      inherited comparison leaves the object as it was, and any other key
      raises `NoMethodError`. */
  function Assign(c: Config, key: string, v: Value): Result<Config, ConfigError> {
    if key in Setters then Success(Config(c.ivars[key := v]))
    else if key in ComparisonKeys then Success(c)
    else Failure(UnknownAttribute(key))
  }

  /** Applies the attributes in order and stops at the first key that is
      not accepted, which raises. */
  function AssignAll(c: Config, attrs: seq<(string, Value)>): (r: Result<Config, ConfigError>)
    ensures r.Success? <==> AllKnown(attrs)
    ensures r.Failure? ==> exists i :: FirstUnknown(attrs, i) && r.error == UnknownAttribute(attrs[i].0)
    decreases |attrs|
  {
    if |attrs| == 0 then Success(c)
    else
      match Assign(c, attrs[0].0, attrs[0].1)
      case Failure(e) =>
        assert FirstUnknown(attrs, 0);
        Failure(e)
      case Success(c') =>
        var r := AssignAll(c', attrs[1..]);
        assert forall i :: 0 <= i < |attrs[1..]| ==> attrs[1..][i] == attrs[i + 1];
        assert r.Failure? ==> exists i :: FirstUnknown(attrs, i) && r.error == UnknownAttribute(attrs[i].0) by {
          if r.Failure? {
            var k :| FirstUnknown(attrs[1..], k) && r.error == UnknownAttribute(attrs[1..][k].0);
            assert attrs[..k + 1] == [attrs[0]] + attrs[1..][..k];
            assert FirstUnknown(attrs, k + 1);
          }
        }
        r
  }

  /** `Config.new(attributes)`: installs the CLI collaborator, then assigns
      every attribute. Construction fails only for a key that is not
      accepted; no attribute is required at this point. */
  function New(attrs: seq<(string, Value)>): (r: Result<Config, ConfigError>)
    ensures r.Success? <==> AllKnown(attrs)
  {
    AssignAll(Config(map["cli" := DefaultCli]), attrs)
  }

  lemma {:induction false} AssignAllReadsBack(c: Config, attrs: seq<(string, Value)>, key: string)
    requires AllKnown(attrs)
    ensures key in Setters ==>
      forall i :: LastAssigned(attrs, key, i) ==> Ivar(AssignAll(c, attrs).value, key) == attrs[i].1
    ensures !Mentions(attrs, key) || key !in Setters ==> Ivar(AssignAll(c, attrs).value, key) == Ivar(c, key)
    decreases |attrs|
  {
    if |attrs| > 0 {
      var c' := Assign(c, attrs[0].0, attrs[0].1).value;
      var rest := attrs[1..];
      assert forall i :: 0 <= i < |rest| ==> rest[i] == attrs[i + 1];
      AssignAllReadsBack(c', rest, key);
      assert AssignAll(c, attrs) == AssignAll(c', rest);
      forall i | key in Setters && LastAssigned(attrs, key, i)
        ensures Ivar(AssignAll(c, attrs).value, key) == attrs[i].1
      {
        if i > 0 {
          assert LastAssigned(rest, key, i - 1);
        } else {
          assert !Mentions(rest, key);
        }
      }
      if !Mentions(attrs, key) {
        assert !Mentions(rest, key);
      }
    }
  }

  /** A key that reaches an inherited comparison is skipped: the attributes
      after it are applied as if it were not there. */
  lemma ComparisonKeysStoreNothing(c: Config, key: string, v: Value, attrs: seq<(string, Value)>)
    requires key in ComparisonKeys
    ensures AssignAll(c, [(key, v)] + attrs) == AssignAll(c, attrs)
  {
    assert forall k :: k in Setters ==> |k| > 2;
    assert ([(key, v)] + attrs)[1..] == attrs;
  }

  /** Construction round trip: after `Config.new(attrs)`, every attribute
      with a setter holds the last value supplied for it, and an attribute
      never supplied keeps its initial state (`nil`, or the CLI collaborator
      for `cli`), as does every name without a setter. */
  lemma NewReadsBack(attrs: seq<(string, Value)>, key: string)
    requires AllKnown(attrs)
    ensures key in Setters ==>
      forall i :: LastAssigned(attrs, key, i) ==> Ivar(New(attrs).value, key) == attrs[i].1
    ensures !Mentions(attrs, key) || key !in Setters ==>
      Ivar(New(attrs).value, key) == (if key == "cli" then DefaultCli else Nil)
  {
    AssignAllReadsBack(Config(map["cli" := DefaultCli]), attrs, key);
  }

  // ---------------------------------------------------------------------
  // Accessors with defaults

  function DeployBranch(c: Config): Value {
    Or(Ivar(c, "deploy_branch"), Str("master"))
  }

  function BranchesToKeep(c: Config): Value {
    Or(Ivar(c, "branches_to_keep"), Strs([]))
  }

  function DeployEnvironments(c: Config): Value {
    Or(Ivar(c, "deploy_environments"), Strs([]))
  }

  function DeployMethods(c: Config): Value {
    Or(Ivar(c, "deploy_methods"), Strs([]))
  }

  /** The required attribute: reading it raises when it was never given a
      truthy value. */
  function GithubRepo(c: Config): Result<Value, ConfigError> {
    var v := Ivar(c, "github_repo");
    if Truthy(v) then Success(v) else Failure(MissingRequiredAttribute)
  }

  /** What a defaulting accessor reads for `key` after construction: the
      last supplied value when it is truthy, the default otherwise. */
  lemma DefaultedReadOfNew(attrs: seq<(string, Value)>, key: string, default: Value)
    requires AllKnown(attrs) && key != "cli"
    ensures !Mentions(attrs, key) || key !in Setters ==> Or(Ivar(New(attrs).value, key), default) == default
    ensures key in Setters ==> forall i :: LastAssigned(attrs, key, i) ==>
      Or(Ivar(New(attrs).value, key), default) == (if Truthy(attrs[i].1) then attrs[i].1 else default)
  {
    NewReadsBack(attrs, key);
  }

  /** `deploy_branch` is "master" unless a value was supplied, and then it
      is exactly that value. */
  lemma DeployBranchOfNew(attrs: seq<(string, Value)>)
    requires AllKnown(attrs)
    ensures !Mentions(attrs, "deploy_branch") ==> DeployBranch(New(attrs).value) == Str("master")
    ensures forall i :: LastAssigned(attrs, "deploy_branch", i) && Truthy(attrs[i].1) ==>
      DeployBranch(New(attrs).value) == attrs[i].1
  {
    DefaultedReadOfNew(attrs, "deploy_branch", Str("master"));
  }

  /** `branches_to_keep`, `deploy_environments` and `deploy_methods` read
      as the empty list unless supplied, and then as the supplied list. */
  lemma ListAttributesOfNew(attrs: seq<(string, Value)>)
    requires AllKnown(attrs)
    ensures !Mentions(attrs, "branches_to_keep") ==> BranchesToKeep(New(attrs).value) == Strs([])
    ensures forall i :: LastAssigned(attrs, "branches_to_keep", i) && Truthy(attrs[i].1) ==>
      BranchesToKeep(New(attrs).value) == attrs[i].1
    ensures !Mentions(attrs, "deploy_environments") ==> DeployEnvironments(New(attrs).value) == Strs([])
    ensures forall i :: LastAssigned(attrs, "deploy_environments", i) && Truthy(attrs[i].1) ==>
      DeployEnvironments(New(attrs).value) == attrs[i].1
    ensures !Mentions(attrs, "deploy_methods") ==> DeployMethods(New(attrs).value) == Strs([])
    ensures forall i :: LastAssigned(attrs, "deploy_methods", i) && Truthy(attrs[i].1) ==>
      DeployMethods(New(attrs).value) == attrs[i].1
  {
    DefaultedReadOfNew(attrs, "branches_to_keep", Strs([]));
    DefaultedReadOfNew(attrs, "deploy_environments", Strs([]));
    DefaultedReadOfNew(attrs, "deploy_methods", Strs([]));
  }

  /** `github_repo` is required only when read: construction succeeds
      whether or not it is supplied, reading it fails exactly when no
      truthy value was supplied, and a supplied value reads back verbatim. */
  lemma GithubRepoOfNew(attrs: seq<(string, Value)>)
    requires AllKnown(attrs)
    ensures New(attrs).Success?
    ensures !Mentions(attrs, "github_repo") ==> GithubRepo(New(attrs).value) == Failure(MissingRequiredAttribute)
    ensures forall i :: LastAssigned(attrs, "github_repo", i) ==>
      GithubRepo(New(attrs).value) ==
        (if Truthy(attrs[i].1) then Success(attrs[i].1) else Failure(MissingRequiredAttribute))
  {
    NewReadsBack(attrs, "github_repo");
  }

  /** The examples of the configuration's own tests: defaults of an empty
      configuration, supplied values read back, an unknown key raises. */
  lemma ConstructionExamples()
    ensures New([]).Success?
    ensures DeployBranch(New([]).value) == Str("master")
    ensures BranchesToKeep(New([]).value) == Strs([])
    ensures GithubRepo(New([]).value) == Failure(MissingRequiredAttribute)
    ensures var c := New([("deploy_branch", Str("foo")), ("branches_to_keep", Strs(["a", "b"]))]).value;
      DeployBranch(c) == Str("foo") && BranchesToKeep(c) == Strs(["a", "b"])
    ensures GithubRepo(New([("github_repo", Str("tstmedia/ngin"))]).value) == Success(Str("tstmedia/ngin"))
    ensures New([("deploy_branch", Str("foo")), ("no_such_key", Nil)]) == Failure(UnknownAttribute("no_such_key"))
  {
    var attrs := [("deploy_branch", Str("foo")), ("branches_to_keep", Strs(["a", "b"]))];
    assert LastAssigned(attrs, "deploy_branch", 0);
    assert LastAssigned(attrs, "branches_to_keep", 1);
    DeployBranchOfNew(attrs);
    ListAttributesOfNew(attrs);
    var gh := [("github_repo", Str("tstmedia/ngin"))];
    assert LastAssigned(gh, "github_repo", 0);
    GithubRepoOfNew(gh);
    var bad := [("deploy_branch", Str("foo")), ("no_such_key", Nil)];
    assert !Accepted(bad[1].0);
    assert FirstUnknown(bad, 1);
  }

  // ---------------------------------------------------------------------
  // Locating the configuration file

  /** An absolute directory as its list of components; `[]` is the root. */
  type Path = seq<string>

  /** `Dir.chdir('..')`: the parent directory; the root is its own parent. */
  function Parent(dir: Path): Path {
    if |dir| == 0 then dir else dir[..|dir| - 1]
  }

  /** The result of the search. In both cases `dir` is also the working
      directory the search leaves behind, since it changes directory as it
      walks. */
  datatype Located =
    | Found(dir: Path, file: Path)
    | NotFound(message: string, dir: Path)

  /** `automation_config_path`: the configuration file in the nearest
      directory, from `dir` upwards, that holds one (`hasConfig`); reaching a
      directory that is its own parent reports the missing file and exits. */
  function ConfigPath(dir: Path, hasConfig: set<Path>): (r: Located)
    ensures r.Found? ==>
      && |r.dir| <= |dir| && r.dir == dir[..|r.dir|]
      && r.dir in hasConfig
      && r.file == r.dir + [FileName]
      && forall k :: |r.dir| < k <= |dir| ==> dir[..k] !in hasConfig
    ensures r.NotFound? ==>
      && r.message == MissingFileMessage
      && r.dir == []
      && forall k :: 0 <= k <= |dir| ==> dir[..k] !in hasConfig
    decreases |dir|
  {
    if dir in hasConfig then Found(dir, dir + [FileName])
    else if Parent(dir) != dir then
      var r := ConfigPath(Parent(dir), hasConfig);
      assert forall k :: 0 <= k <= |Parent(dir)| ==> Parent(dir)[..k] == dir[..k];
      assert dir[..|dir|] == dir;
      r
    else NotFound(MissingFileMessage, dir)
  }

  /** The search succeeds exactly when some ancestor of the starting
      directory (itself included) holds the file. */
  lemma ConfigPathFindsAnyAncestor(dir: Path, hasConfig: set<Path>)
    ensures ConfigPath(dir, hasConfig).Found? <==> exists k :: 0 <= k <= |dir| && dir[..k] in hasConfig
  {
    var r := ConfigPath(dir, hasConfig);
    if r.Found? {
      assert dir[..|r.dir|] in hasConfig;
    }
  }

  /** Searching again from the directory the first search left behind gives
      the same answer, so later lookups (for example `basedir`, which runs
      the search again after `parse`) agree with the first one. */
  lemma {:induction false} ConfigPathStable(dir: Path, hasConfig: set<Path>)
    ensures ConfigPath(ConfigPath(dir, hasConfig).dir, hasConfig) == ConfigPath(dir, hasConfig)
  {
    var r := ConfigPath(dir, hasConfig);
    if r.NotFound? {
      assert [] == dir[..0];
    }
  }

  // ---------------------------------------------------------------------
  // Remote branches

  /** `*` or a whitespace character: what `gsub!(/\*|\s/, '')` deletes. */
  predicate IsListingMarker(c: char) {
    c == '*' || IsSpace(c)
  }

  function DeleteMarkers(s: string): (r: string)
    ensures forall i :: 0 <= i < |r| ==> !IsListingMarker(r[i])
    decreases |s|
  {
    if |s| == 0 then ""
    else if IsListingMarker(s[0]) then DeleteMarkers(s[1..])
    else [s[0]] + DeleteMarkers(s[1..])
  }

  lemma {:induction false} DeleteMarkersAppend(a: string, b: string)
    ensures DeleteMarkers(a + b) == DeleteMarkers(a) + DeleteMarkers(b)
    decreases |a|
  {
    if |a| > 0 {
      assert (a + b)[1..] == a[1..] + b;
      DeleteMarkersAppend(a[1..], b);
    } else {
      assert a + b == b;
    }
  }

  lemma {:induction false} DeleteMarkersKeeps(s: string)
    requires forall i :: 0 <= i < |s| ==> !IsListingMarker(s[i])
    ensures DeleteMarkers(s) == s
    decreases |s|
  {
    if |s| > 0 {
      DeleteMarkersKeeps(s[1..]);
      assert [s[0]] + s[1..] == s;
    }
  }

  lemma {:induction false} DeleteMarkersDrops(s: string)
    requires forall i :: 0 <= i < |s| ==> IsListingMarker(s[i])
    ensures DeleteMarkers(s) == ""
    decreases |s|
  {
    if |s| > 0 {
      DeleteMarkersDrops(s[1..]);
    }
  }

  /** Every line with its markers deleted (the in-place `gsub!` over the
      list). */
  function StripAll(lines: seq<string>): (r: seq<string>)
    ensures |r| == |lines|
    ensures forall i :: 0 <= i < |lines| ==> r[i] == DeleteMarkers(lines[i])
  {
    seq(|lines|, i requires 0 <= i < |lines| => DeleteMarkers(lines[i]))
  }

  /** `remote_branch_exists?`: the listing of `git branch -r` is split into
      lines, every `*` and whitespace character is deleted from each line,
      and the branch exists when some line is then `origin/<branch>`. */
  function RemoteBranchExists(listing: string, branch: string): bool {
    "origin/" + branch in StripAll(Lines(listing))
  }

  lemma DeleteMarkersChompCr(f: string)
    ensures DeleteMarkers(ChompCr(f)) == DeleteMarkers(f)
  {
    if |f| > 0 && f[|f| - 1] == '\r' {
      DeleteMarkersAppend(f[..|f| - 1], "\r");
      assert f == f[..|f| - 1] + "\r";
    }
  }

  /** Removing carriage returns and trailing empty lines changes nothing
      about which non-empty names the stripped lines contain. */
  lemma StrippedLinesOfFields(fields: seq<string>, target: string)
    requires target != ""
    ensures target in StripAll(DropTrailingEmpty(ChompLines(fields))) <==> target in StripAll(fields)
  {
    var chomped := ChompLines(fields);
    var lines := DropTrailingEmpty(chomped);
    forall i | 0 <= i < |fields|
      ensures DeleteMarkers(chomped[i]) == DeleteMarkers(fields[i])
    {
      DeleteMarkersChompCr(fields[i]);
    }
    if target in StripAll(lines) {
      var i :| 0 <= i < |lines| && StripAll(lines)[i] == target;
      assert lines[i] == chomped[i];
      assert StripAll(fields)[i] == target;
    }
    if target in StripAll(fields) {
      var i :| 0 <= i < |fields| && StripAll(fields)[i] == target;
      assert i < |lines|;
      assert StripAll(lines)[i] == target;
    }
  }

  /** The line-ending details of the split do not matter: the branch exists
      exactly when some line-feed-separated field of the listing, with its
      markers deleted, is `origin/<branch>`. */
  lemma RemoteBranchExistsByField(listing: string, branch: string)
    ensures RemoteBranchExists(listing, branch) <==> "origin/" + branch in StripAll(Split(listing, '\n'))
  {
    var fields := Split(listing, '\n');
    StrippedLinesOfFields(fields, "origin/" + branch);
  }

  lemma DeleteMarkersOfIndented(pad: string, name: string)
    requires forall i :: 0 <= i < |pad| ==> IsListingMarker(pad[i])
    requires forall i :: 0 <= i < |name| ==> !IsListingMarker(name[i])
    ensures DeleteMarkers(pad + name) == name
  {
    DeleteMarkersAppend(pad, name);
    DeleteMarkersDrops(pad);
    DeleteMarkersKeeps(name);
  }

  /** A listing line's indentation: markers, but no line feed. */
  predicate IsIndent(s: string) {
    forall i :: 0 <= i < |s| ==> IsListingMarker(s[i]) && s[i] != '\n'
  }

  predicate NoMarkers(s: string) {
    forall i :: 0 <= i < |s| ==> !IsListingMarker(s[i])
  }

  lemma ListingLine(pad: string, name: string)
    requires IsIndent(pad) && NoMarkers(name)
    ensures '\n' !in pad + "origin/" + name
    ensures DeleteMarkers(pad + "origin/" + name) == "origin/" + name
  {
    var full := "origin/" + name;
    assert NoMarkers("origin/");
    assert NoMarkers(full) by {
      forall i | 0 <= i < |full| ensures !IsListingMarker(full[i]) {
        if i >= 7 {
          assert full[i] == name[i - 7];
        }
      }
    }
    assert pad + "origin/" + name == pad + full;
    DeleteMarkersOfIndented(pad, full);
  }

  function ListingLines(pads: seq<string>, names: seq<string>): seq<string>
    requires |pads| == |names|
  {
    seq(|names|, k requires 0 <= k < |names| => pads[k] + "origin/" + names[k])
  }

  function Remotes(names: seq<string>): seq<string> {
    seq(|names|, k requires 0 <= k < |names| => "origin/" + names[k])
  }

  lemma ListingFields(pads: seq<string>, names: seq<string>)
    requires |pads| == |names|
    requires forall k :: 0 <= k < |pads| ==> IsIndent(pads[k])
    requires forall k :: 0 <= k < |names| ==> NoMarkers(names[k])
    ensures Split(FormatListing(pads, names), '\n') == ListingLines(pads, names) + [""]
    ensures StripAll(ListingLines(pads, names) + [""]) == Remotes(names) + [""]
  {
    var fields := ListingLines(pads, names) + [""];
    forall k | 0 <= k < |fields|
      ensures '\n' !in fields[k]
      ensures k < |names| ==> DeleteMarkers(fields[k]) == "origin/" + names[k]
    {
      if k < |names| {
        ListingLine(pads[k], names[k]);
      }
    }
    SplitJoin(fields, '\n');
  }

  /** A listing in the shape `git branch -r` prints: one line per branch,
      an indentation (with a `*` on the current branch) before
      `origin/<name>`, every line ended by a line feed. */
  function FormatListing(pads: seq<string>, names: seq<string>): string
    requires |pads| == |names|
  {
    Join(ListingLines(pads, names) + [""], '\n')
  }

  /** On a well-formed listing, `remote_branch_exists?` holds exactly for
      the listed branch names. */
  lemma RemoteBranchExistsOfListing(pads: seq<string>, names: seq<string>, branch: string)
    requires |pads| == |names|
    requires forall k :: 0 <= k < |pads| ==> IsIndent(pads[k])
    requires forall k :: 0 <= k < |names| ==> NoMarkers(names[k])
    ensures RemoteBranchExists(FormatListing(pads, names), branch) <==> branch in names
  {
    ListingFields(pads, names);
    RemoteBranchExistsByField(FormatListing(pads, names), branch);
    RemotesMembership(names, branch);
  }

  lemma RemotesMembership(names: seq<string>, branch: string)
    ensures "origin/" + branch in Remotes(names) + [""] <==> branch in names
  {
    var stripped := Remotes(names) + [""];
    if branch in names {
      var k :| 0 <= k < |names| && names[k] == branch;
      assert stripped[k] == "origin/" + branch;
    }
    if "origin/" + branch in stripped {
      var k :| 0 <= k < |stripped| && stripped[k] == "origin/" + branch;
      assert k < |names|;
      assert names[k] == ("origin/" + names[k])[7..];
      assert names[k] == ("origin/" + branch)[7..];
    }
  }

  /** The configuration's own test: a listing of `production` (current,
      starred), `test` and `asdf` finds `production` and not `not-there`. */
  lemma RemoteBranchExistsExample()
    ensures RemoteBranchExists(FormatListing(["  * ", "    ", "    "], ["production", "test", "asdf"]), "production")
    ensures !RemoteBranchExists(FormatListing(["  * ", "    ", "    "], ["production", "test", "asdf"]), "not-there")
  {
    var pads, names := ["  * ", "    ", "    "], ["production", "test", "asdf"];
    assert forall k :: 0 <= k < |pads| ==> IsIndent(pads[k]);
    assert NoMarkers(names[0]) && NoMarkers(names[1]) && NoMarkers(names[2]);
    RemoteBranchExistsOfListing(pads, names, "production");
    RemoteBranchExistsOfListing(pads, names, "not-there");
  }

  // ---------------------------------------------------------------------
  // Application name and server rules

  /** The argument of `current_app?`, before `to_s`. */
  datatype AppRef = Named(name: string) | Symbol(sym: string) | NilRef

  /** Ruby's `to_s` on the argument. */
  function AppRefToS(x: AppRef): string {
    match x
    case Named(n) => n
    case Symbol(n) => n
    case NilRef => ""
  }

  /** `app_name`: the CloudNgin name, else the EngineYard name, else the
      name of the directory holding the configuration file. */
  function AppName(c: Config, basedir: string): Value {
    Or(Ivar(c, "cloud_ngin_app_name"), Or(Ivar(c, "engine_yard_app_name"), Str(basedir)))
  }

  function CurrentApp(c: Config, x: AppRef): bool {
    Ivar(c, "engine_yard_app_name") == Str(AppRefToS(x))
  }

  /** The fallback chain of `app_name`, stated for a freshly constructed
      configuration: a name supplied as `nil` or `false` falls through to
      the next one just as an absent name does. */
  lemma AppNameOfNew(attrs: seq<(string, Value)>, basedir: string)
    requires AllKnown(attrs)
    ensures NoTruthyValue(attrs, "cloud_ngin_app_name") && NoTruthyValue(attrs, "engine_yard_app_name") ==>
      AppName(New(attrs).value, basedir) == Str(basedir)
    ensures forall i :: LastAssigned(attrs, "cloud_ngin_app_name", i) && Truthy(attrs[i].1) ==>
      AppName(New(attrs).value, basedir) == attrs[i].1
    ensures forall i ::
      (LastAssigned(attrs, "engine_yard_app_name", i) && Truthy(attrs[i].1) && NoTruthyValue(attrs, "cloud_ngin_app_name")) ==>
      AppName(New(attrs).value, basedir) == attrs[i].1
  {
    FallsThrough(attrs, "cloud_ngin_app_name");
    FallsThrough(attrs, "engine_yard_app_name");
    NewReadsBack(attrs, "cloud_ngin_app_name");
    NewReadsBack(attrs, "engine_yard_app_name");
  }

  /** An attribute with no truthy value supplied reads as falsy. */
  lemma FallsThrough(attrs: seq<(string, Value)>, key: string)
    requires AllKnown(attrs) && key in Setters && key != "cli"
    ensures NoTruthyValue(attrs, key) ==> !Truthy(Ivar(New(attrs).value, key))
  {
    NewReadsBack(attrs, key);
    if Mentions(attrs, key) {
      MentionedIsLastAssigned(attrs, key);
    }
  }

  /** `current_app?` never holds without an EngineYard name, and when no
      CloudNgin name overrides it, it holds exactly for the application
      `app_name` reports. */
  lemma CurrentAppMatchesAppName(c: Config, x: AppRef, basedir: string)
    ensures !Truthy(Ivar(c, "engine_yard_app_name")) ==> !CurrentApp(c, x)
    ensures Truthy(Ivar(c, "engine_yard_app_name")) && !Truthy(Ivar(c, "cloud_ngin_app_name")) ==>
      (CurrentApp(c, x) <==> AppName(c, basedir) == Str(AppRefToS(x)))
  {
  }

  /** One EngineYard instance, as far as the server table uses it (string
      interpolation renders a missing field as ""). */
  datatype Instance = Instance(amazonId: string, hostname: string, name: string, role: string)

  /** `instance_key`: role, name, hostname and Amazon id separated by single
      spaces. */
  function InstanceKey(i: Instance): string {
    i.role + " " + i.name + " " + i.hostname + " " + i.amazonId
  }

  predicate NoSpaceIn(s: string) {
    ' ' !in s
  }

  /** When no field contains a space, the key splits back into its four
      fields, so distinct instances get distinct keys in the server table. */
  lemma InstanceKeyRoundTrip(i: Instance)
    requires NoSpaceIn(i.role) && NoSpaceIn(i.name) && NoSpaceIn(i.hostname) && NoSpaceIn(i.amazonId)
    ensures Split(InstanceKey(i), ' ') == [i.role, i.name, i.hostname, i.amazonId]
  {
    var parts := [i.role, i.name, i.hostname, i.amazonId];
    assert Join(parts[2..], ' ') == i.hostname + " " + i.amazonId;
    assert Join(parts[1..], ' ') == i.name + " " + Join(parts[2..], ' ');
    assert Join(parts, ' ') == i.role + " " + Join(parts[1..], ' ');
    assert Join(parts, ' ') == InstanceKey(i);
    SplitJoin(parts, ' ');
  }

  lemma InstanceKeyInjective(i: Instance, j: Instance)
    requires NoSpaceIn(i.role) && NoSpaceIn(i.name) && NoSpaceIn(i.hostname) && NoSpaceIn(i.amazonId)
    requires NoSpaceIn(j.role) && NoSpaceIn(j.name) && NoSpaceIn(j.hostname) && NoSpaceIn(j.amazonId)
    ensures InstanceKey(i) == InstanceKey(j) ==> i == j
  {
    InstanceKeyRoundTrip(i);
    InstanceKeyRoundTrip(j);
  }

  /** The `allow_non_infrastructure` entry of a server: non-infrastructure
      keys may be used unless the environment name mentions "production". */
  function AllowNonInfrastructure(environmentName: string): bool {
    !Contains(environmentName, "production")
  }

  /** An environment is closed to non-infrastructure keys exactly when its
      name embeds "production"; in particular a name shorter than
      "production" never is. */
  lemma AllowNonInfrastructureRule(environmentName: string)
    ensures AllowNonInfrastructure(environmentName) <==>
      !exists before, after :: environmentName == before + "production" + after
    ensures |environmentName| < |"production"| ==> AllowNonInfrastructure(environmentName)
  {
    if !AllowNonInfrastructure(environmentName) {
      ContainsDecomposes(environmentName, "production");
    }
    if exists before, after :: environmentName == before + "production" + after {
      var before, after :| environmentName == before + "production" + after;
      ContainsInfix(before, "production", after);
    }
  }

  lemma AllowNonInfrastructureExamples()
    ensures AllowNonInfrastructure("staging")
    ensures !AllowNonInfrastructure("production")
    ensures !AllowNonInfrastructure("ngin_production_2")
  {
    AllowNonInfrastructureRule("staging");
    ContainsInfix("", "production", "");
    ContainsInfix("ngin_", "production", "_2");
    assert "" + "production" + "" == "production";
    assert "ngin_" + "production" + "_2" == "ngin_production_2";
  }
}
