// The Conan packaging recipe of the framework (class ScytheRecipe).
//
// Options are a sparse map from option name to the option's value as Conan
// renders it ("True" / "False"); a key that is absent is an option that does
// not exist for this configuration (fPIC on Windows).  The recipe's lifecycle
// steps are methods of the class Recipe that append to its output fields,
// each specified by a pure function of the options.

module ConanRecipe {

  /** One `self.requires(...)` call: the reference and its trait. */
  datatype Requirement = Requirement(reference: string, transitiveHeaders: bool)

  /** The C++ standards of Conan's `compiler.cppstd` setting, by their two digits. */
  datatype Version = Cpp98 | Cpp11 | Cpp14 | Cpp17 | Cpp20 | Cpp23

  /**
   * The setting `compiler.cppstd`: unset, or a standard, with the GNU
   * extensions when its value carries the "gnu" prefix ("gnu17").
   */
  datatype CppStdSetting = Unset | CppStd(version: Version, gnu: bool)

  /**
   * Outcome of `validate`: `check_min_cppstd` raises when the setting is
   * undefined or names an older standard than required.
   */
  datatype Validation = Valid | CppStdUndefined | InvalidConfiguration(required: Version, found: CppStdSetting)

  const RecipeName := "scythe"
  const MinCppStd: Version := Cpp17
  const TestRequirement := "gtest/[>=1.15.0]"
  const ToolRequirement := "cmake/[>3.15]"
  const Glad := "glad/[>=2.0]"
  const OpenGLDefine := "SCYTHE_USE_OPENGL"

  /** The option names declared by `options`. */
  const OptionNames: set<string> := {"shared", "fPIC", "OpenGL"}

  const DefaultOptions: map<string, string> :=
    map["shared" := "False", "fPIC" := "True", "OpenGL" := "True"]

  /** The `scythe_defines` and `scythe_requires` tables, keyed by feature. */
  const ScytheDefines: map<string, seq<string>> := map["OpenGL" := [OpenGLDefine]]
  const ScytheRequires: map<string, seq<string>> := map["OpenGL" := [Glad]]

  function BoolString(b: bool): string
  {
    if b then "True" else "False"
  }

  /** `self.options.OpenGL == "True"` */
  predicate OpenGLEnabled(options: map<string, string>)
  {
    "OpenGL" in options && options["OpenGL"] == "True"
  }

  /** The options a consumer obtains: the defaults overlaid with its overrides. */
  function ApplyOverrides(overrides: map<string, bool>): (options: map<string, string>)
    requires overrides.Keys <= OptionNames
    ensures options.Keys == OptionNames
    ensures forall k :: k in overrides ==> options[k] == BoolString(overrides[k])
    ensures forall k :: k in OptionNames && k !in overrides ==> options[k] == DefaultOptions[k]
  {
    map k | k in OptionNames :: if k in overrides then BoolString(overrides[k]) else DefaultOptions[k]
  }

  /** `config_options`: fPIC does not exist on Windows. */
  function ConfiguredOptions(os: string, options: map<string, string>): (r: map<string, string>)
    ensures "fPIC" in r <==> "fPIC" in options && os != "Windows"
    ensures forall k :: k in options && k != "fPIC" ==> k in r && r[k] == options[k]
    ensures forall k :: k in r ==> k in options && r[k] == options[k]
  {
    if os == "Windows" then options - {"fPIC"} else options
  }

  /** The two digits a standard is named by. */
  function Digits(v: Version): nat
  {
    match v
    case Cpp98 => 98
    case Cpp11 => 11
    case Cpp14 => 14
    case Cpp17 => 17
    case Cpp20 => 20
    case Cpp23 => 23
  }

  /**
   * The year Conan compares standards by: it strips the "gnu" prefix and
   * puts "19" before "98" and "20" before any other two digits.  Conan
   * compares the four-digit strings, which order as the numbers do.
   */
  function Year(v: Version): nat
  {
    if Digits(v) == 98 then 1900 + Digits(v) else 2000 + Digits(v)
  }

  /** `validate`: `check_min_cppstd(self, "17")`, without GNU extensions required. */
  function ValidationOf(cppstd: CppStdSetting): (r: Validation)
    ensures r == CppStdUndefined <==> cppstd == Unset
    ensures r == Valid <==> cppstd.CppStd? && cppstd.version in {Cpp17, Cpp20, Cpp23}
    ensures r.InvalidConfiguration? ==> r == InvalidConfiguration(MinCppStd, cppstd)
  {
    if cppstd.Unset? then CppStdUndefined
    else if Year(cppstd.version) < Year(MinCppStd) then InvalidConfiguration(MinCppStd, cppstd)
    else Valid
  }

  /** The run-time requirements `requirements` declares for the given options. */
  function RuntimeRequirements(options: map<string, string>): seq<Requirement>
  {
    if OpenGLEnabled(options) then
      var refs := ScytheRequires["OpenGL"];
      seq(|refs|, i requires 0 <= i < |refs| => Requirement(refs[i], true))
    else []
  }

  /** The toolchain variables `generate` sets for the given options. */
  function ToolchainVariables(options: map<string, string>): map<string, bool>
  {
    if OpenGLEnabled(options) then
      var defs := ScytheDefines["OpenGL"];
      map d | d in defs :: true
    else map[]
  }

  /** The defines `package_info` exports for the given options. */
  function PackageDefines(options: map<string, string>): seq<string>
  {
    if OpenGLEnabled(options) then ScytheDefines["OpenGL"] else []
  }

  lemma GladRequiredIffOpenGL(options: map<string, string>)
    ensures Requirement(Glad, true) in RuntimeRequirements(options) <==> OpenGLEnabled(options)
    ensures forall r :: r in RuntimeRequirements(options) ==> r == Requirement(Glad, true)
    ensures |RuntimeRequirements(options)| == if OpenGLEnabled(options) then 1 else 0
  {
    if OpenGLEnabled(options) {
      assert RuntimeRequirements(options)[0] == Requirement(Glad, true);
    }
  }

  lemma OpenGLVariableIffEnabled(options: map<string, string>)
    ensures OpenGLDefine in ToolchainVariables(options) <==> OpenGLEnabled(options)
    ensures forall v :: v in ToolchainVariables(options) ==> v == OpenGLDefine && ToolchainVariables(options)[v]
  {
  }

  lemma OpenGLDefineIffEnabled(options: map<string, string>)
    ensures OpenGLDefine in PackageDefines(options) <==> OpenGLEnabled(options)
    ensures PackageDefines(options) == if OpenGLEnabled(options) then [OpenGLDefine] else []
  {
  }

  /** Only fPIC depends on the platform: every other option, and therefore every output, is the same on all systems. */
  lemma OutputsIndependentOfOs(os1: string, os2: string, options: map<string, string>)
    ensures ConfiguredOptions(os1, options) - {"fPIC"} == ConfiguredOptions(os2, options) - {"fPIC"}
    ensures RuntimeRequirements(ConfiguredOptions(os1, options)) == RuntimeRequirements(ConfiguredOptions(os2, options))
    ensures ToolchainVariables(ConfiguredOptions(os1, options)) == ToolchainVariables(ConfiguredOptions(os2, options))
    ensures PackageDefines(ConfiguredOptions(os1, options)) == PackageDefines(ConfiguredOptions(os2, options))
  {
    var a, b := ConfiguredOptions(os1, options), ConfiguredOptions(os2, options);
    assert a - {"fPIC"} == options - {"fPIC"};
    assert b - {"fPIC"} == options - {"fPIC"};
    assert OpenGLEnabled(a) == OpenGLEnabled(options) == OpenGLEnabled(b);
  }

  /** The recipe instance of one configure run and the outputs its steps produce. */
  class Recipe {
    const os: string
    const cppstd: CppStdSetting
    var options: map<string, string>
    var requirements: seq<Requirement>
    var testRequires: seq<string>
    var toolRequires: seq<string>
    var variables: map<string, bool>
    var defines: seq<string>
    var libs: seq<string>

    /** Conan instantiates the recipe with the declared options, overridden by the consumer. */
    constructor (os: string, cppstd: CppStdSetting, overrides: map<string, bool>)
      requires overrides.Keys <= OptionNames
      ensures this.os == os && this.cppstd == cppstd
      ensures options == ApplyOverrides(overrides)
      ensures requirements == [] && testRequires == [] && toolRequires == []
      ensures variables == map[] && defines == [] && libs == []
    {
      this.os := os;
      this.cppstd := cppstd;
      options := ApplyOverrides(overrides);
      requirements, testRequires, toolRequires := [], [], [];
      variables, defines, libs := map[], [], [];
    }

    method ConfigOptions()
      modifies this
      ensures options == ConfiguredOptions(os, old(options))
      ensures requirements == old(requirements) && testRequires == old(testRequires)
      ensures toolRequires == old(toolRequires) && variables == old(variables)
      ensures defines == old(defines) && libs == old(libs)
    {
      if os == "Windows" {
        options := options - {"fPIC"};
      }
    }

    method Validate() returns (r: Validation)
      ensures r == ValidationOf(cppstd)
    {
      if cppstd.Unset? {
        r := CppStdUndefined;
      } else if Year(cppstd.version) < Year(MinCppStd) {
        r := InvalidConfiguration(MinCppStd, cppstd);
      } else {
        r := Valid;
      }
    }

    method Requirements()
      modifies this
      ensures testRequires == old(testRequires) + [TestRequirement]
      ensures requirements == old(requirements) + RuntimeRequirements(options)
      ensures options == old(options) && toolRequires == old(toolRequires)
      ensures variables == old(variables) && defines == old(defines) && libs == old(libs)
    {
      testRequires := testRequires + [TestRequirement];
      if OpenGLEnabled(options) {
        var refs := ScytheRequires["OpenGL"];
        var added := requirements;
        for i := 0 to |refs|
          invariant added == requirements + seq(i, k requires 0 <= k < i => Requirement(refs[k], true))
        {
          added := added + [Requirement(refs[i], true)];
        }
        requirements := added;
      }
    }

    method BuildRequirements()
      modifies this
      ensures toolRequires == old(toolRequires) + [ToolRequirement]
      ensures options == old(options) && requirements == old(requirements) && testRequires == old(testRequires)
      ensures variables == old(variables) && defines == old(defines) && libs == old(libs)
    {
      toolRequires := toolRequires + [ToolRequirement];
    }

    /** `generate`: the toolchain variables start empty in a fresh CMakeToolchain. */
    method Generate()
      modifies this
      ensures variables == ToolchainVariables(options)
      ensures options == old(options) && requirements == old(requirements) && testRequires == old(testRequires)
      ensures toolRequires == old(toolRequires) && defines == old(defines) && libs == old(libs)
    {
      var vars := map[];
      if OpenGLEnabled(options) {
        var defs := ScytheDefines["OpenGL"];
        for i := 0 to |defs|
          invariant vars == map d | d in defs[..i] :: true
        {
          vars := vars[defs[i] := true];
          assert defs[..i + 1] == defs[..i] + [defs[i]];
        }
        assert defs[..|defs|] == defs;
      }
      variables := vars;
    }

    method PackageInfo()
      modifies this
      ensures defines == old(defines) + PackageDefines(options)
      ensures libs == [RecipeName]
      ensures options == old(options) && requirements == old(requirements) && testRequires == old(testRequires)
      ensures toolRequires == old(toolRequires) && variables == old(variables)
    {
      if OpenGLEnabled(options) {
        var defs := ScytheDefines["OpenGL"];
        var appended := defines;
        for i := 0 to |defs|
          invariant appended == defines + defs[..i]
        {
          appended := appended + [defs[i]];
          assert defs[..i + 1] == defs[..i] + [defs[i]];
        }
        assert defs[..|defs|] == defs;
        defines := appended;
      }
      libs := [RecipeName];
    }
  }

  /** The default configuration on Linux, run through every step. */
  method DefaultLinuxConfiguration()
  {
    var recipe := new Recipe("Linux", CppStd(Cpp17, false), map[]);
    recipe.ConfigOptions();
    var v := recipe.Validate();
    recipe.Requirements();
    recipe.BuildRequirements();
    recipe.Generate();
    recipe.PackageInfo();
    assert v == Valid;
    assert recipe.options == DefaultOptions;
    assert recipe.testRequires == [TestRequirement];
    assert recipe.requirements == [Requirement(Glad, true)];
    assert recipe.toolRequires == [ToolRequirement];
    assert recipe.variables == map[OpenGLDefine := true];
    assert recipe.defines == [OpenGLDefine] && recipe.libs == ["scythe"];
  }

  /** OpenGL disabled on Windows: no fPIC option, no glad, no define. */
  method WindowsWithoutOpenGL()
  {
    var recipe := new Recipe("Windows", CppStd(Cpp20, true), map["OpenGL" := false, "shared" := true]);
    recipe.ConfigOptions();
    recipe.Requirements();
    recipe.Generate();
    recipe.PackageInfo();
    assert "fPIC" !in recipe.options;
    assert recipe.options == map["shared" := "True", "OpenGL" := "False"];
    assert recipe.requirements == [] && recipe.testRequires == [TestRequirement];
    assert recipe.variables == map[] && recipe.defines == [] && recipe.libs == ["scythe"];
  }

  /**
   * C++98 is the oldest standard although 98 is the largest number, with or
   * without the GNU extensions; an unset standard is refused as well.
   */
  method OldAndUnsetStandards()
  {
    var gnu98 := new Recipe("Linux", CppStd(Cpp98, true), map[]);
    var v := gnu98.Validate();
    assert v == InvalidConfiguration(Cpp17, CppStd(Cpp98, true));
    var cpp14 := new Recipe("Macos", CppStd(Cpp14, false), map[]);
    v := cpp14.Validate();
    assert v.InvalidConfiguration?;
    var unset := new Recipe("Linux", Unset, map[]);
    v := unset.Validate();
    assert v == CppStdUndefined;
    var gnu23 := new Recipe("Windows", CppStd(Cpp23, true), map[]);
    v := gnu23.Validate();
    assert v == Valid;
  }
}
