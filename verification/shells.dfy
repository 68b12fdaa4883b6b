/** The shell enumeration of src/shells.rs: its display names, the
    case-insensitive parser, the executable-path lookup and the mapping onto
    the standard completion shells. */
module Shells {
  import opened Wrappers
  import opened Strings

  datatype Shell = Bash | Elvish | Fish | PowerShell | Zsh | Nushell

  /** The shells the standard completion generator knows; Nushell is not among them. */
  datatype StandardShell = StdBash | StdElvish | StdFish | StdPowerShell | StdZsh

  /** `Display for Shell`. */
  function Display(sh: Shell): (name: string)
    ensures |name| > 0
    ensures ToAsciiLowercase(name) == name
  {
    match sh
    case Bash => "bash"
    case Elvish => "elvish"
    case Fish => "fish"
    case PowerShell => "powershell"
    case Zsh => "zsh"
    case Nushell => "nushell"
  }


  /** `Shell::from_str`: the lowercased input must be one of the six display
      names exactly; otherwise the error quotes the input unchanged. */
  function FromStr(s: string): (r: Result<Shell, string>)
    ensures r.Ok? ==> ToAsciiLowercase(s) == Display(r.value)
    ensures r.Err? ==> r.error == "invalid variant: " + s
    ensures r.Err? ==> forall sh :: ToAsciiLowercase(s) != Display(sh)
  {
    var l := ToAsciiLowercase(s);
    if l == "bash" then Ok(Bash)
    else if l == "elvish" then Ok(Elvish)
    else if l == "fish" then Ok(Fish)
    else if l == "powershell" then Ok(PowerShell)
    else if l == "zsh" then Ok(Zsh)
    else if l == "nushell" then Ok(Nushell)
    else Err("invalid variant: " + s)
  }

  /** Parsing the display name gives the shell back. */
  lemma FromStrDisplay(sh: Shell)
    ensures FromStr(Display(sh)) == Ok(sh)
  {
    match sh
    case Bash =>
    case Elvish =>
    case Fish =>
    case PowerShell =>
    case Zsh =>
    case Nushell =>
  }

  /** No two shells share a display name. */
  lemma DisplayInjective(a: Shell, b: Shell)
    ensures Display(a) == Display(b) ==> a == b
  {
    FromStrDisplay(a);
    FromStrDisplay(b);
  }

  /** The parser accepts exactly the strings whose lowercase form is a display name. */
  lemma FromStrAccepts(s: string, sh: Shell)
    ensures FromStr(s) == Ok(sh) <==> ToAsciiLowercase(s) == Display(sh)
  {
    var r := FromStr(s);
    if r.Ok? {
      DisplayInjective(r.value, sh);
    }
  }

  /** Case makes no difference to the parse. */
  lemma FromStrCaseInsensitive(s: string)
    ensures FromStr(ToAsciiLowercase(s)).Ok? == FromStr(s).Ok?
    ensures FromStr(s).Ok? ==> FromStr(ToAsciiLowercase(s)) == FromStr(s)
  {
    LowerIdempotent(s);
  }

  lemma FromStrMixedCaseExample()
    ensures FromStr("BaSh") == Ok(Bash)
    ensures FromStr("NuShell") == Ok(Nushell)
  {
    assert ToAsciiLowercase("BaSh") == "bash";
    assert ToAsciiLowercase("NuShell") == "nushell";
  }

  /** No trimming: surrounding whitespace makes the input invalid. */
  lemma FromStrErrorExamples()
    ensures FromStr("") == Err("invalid variant: ")
    ensures FromStr(" bash") == Err("invalid variant:  bash")
  {
    assert ToAsciiLowercase("") == "";
    assert "invalid variant: " + "" == "invalid variant: ";
    assert ToAsciiLowercase(" bash") == " bash";
    assert "invalid variant: " + " bash" == "invalid variant:  bash";
  }

  // ---------------------------------------------------------------------------
  // from_shell_path.

  /** The path with every trailing '/' removed. */
  function StripTrailingSlashes(p: string): (q: string)
    ensures |q| <= |p| && q == p[..|q|]
    ensures |q| == 0 || q[|q| - 1] != '/'
    ensures forall i :: |q| <= i < |p| ==> p[i] == '/'
  {
    if |p| > 0 && p[|p| - 1] == '/' then StripTrailingSlashes(p[..|p| - 1]) else p
  }

  /** The text after the last '/', or all of `p` when it has none. */
  function AfterLastSlash(p: string): (seg: string)
    ensures |seg| <= |p| && seg == p[|p| - |seg|..]
    ensures '/' !in seg
    ensures |seg| < |p| ==> p[|p| - |seg| - 1] == '/'
  {
    if |p| == 0 || p[|p| - 1] == '/' then [] else AfterLastSlash(p[..|p| - 1]) + [p[|p| - 1]]
  }

  /** `Path::file_name` on a Unix path: the last component, skipping "."
      components and trailing separators; none when that is ".." or absent. */
  function FileName(p: string): (name: Option<string>)
    ensures name.Some? ==> |name.value| > 0 && '/' !in name.value
    ensures name.Some? ==> name.value != "." && name.value != ".."
    decreases |p|
  {
    var q := StripTrailingSlashes(p);
    var seg := AfterLastSlash(q);
    if |seg| == 0 then None
    else if seg == "." then FileName(q[..|q| - 1])
    else if seg == ".." then None
    else Some(seg)
  }

  /** The position of the last '.', if any. */
  function LastDot(name: string): (i: Option<nat>)
    ensures i.Some? ==> i.value < |name| && name[i.value] == '.' && '.' !in name[i.value + 1..]
    ensures i.None? ==> '.' !in name
  {
    if |name| == 0 then None
    else if name[|name| - 1] == '.' then Some(|name| - 1)
    else
      var j := LastDot(name[..|name| - 1]);
      assert name == name[..|name| - 1] + [name[|name| - 1]];
      j
  }

  /** The stem of a file name: the text before the last '.', unless that is empty. */
  function Stem(name: string): (stem: string)
    ensures |stem| <= |name| && stem == name[..|stem|]
    ensures LastDot(name).None? || LastDot(name).value == 0 ==> stem == name
    ensures (exists k :: 0 < k < |name| && name[k] == '.') ==>
      && 0 < |stem| < |name|
      && name[|stem|] == '.'
      && '.' !in name[|stem| + 1..]
  {
    var d := LastDot(name);
    if d.None? || d.value == 0 then
      assert forall k :: 0 < k < |name| ==> name[k] != '.' by {
        if d.Some? {
          forall k | 0 < k < |name| ensures name[k] != '.' {
            assert name[k] == name[1..][k - 1];
          }
        }
      }
      name
    else name[..d.value]
  }

  /** Only the last extension is dropped. */
  lemma StemLastDotExample(name: string)
    requires name == "a.b.c"
    ensures Stem(name) == "a.b"
  {
    assert name[3] == '.';
  }

  /** `Path::file_stem`. */
  function FileStem(p: string): Option<string> {
    var n := FileName(p);
    if n.None? then None else Some(Stem(n.value))
  }

  /** The stems each shell is recognised by; the lookup is case-sensitive. */
  function StemNames(sh: Shell): set<string> {
    match sh
    case Bash => {"bash"}
    case Elvish => {"elvish"}
    case Fish => {"fish"}
    case PowerShell => {"powershell", "powershell_ise"}
    case Zsh => {"zsh"}
    case Nushell => {"nu", "nushell"}
  }

  /** The case-sensitive stem table of `from_shell_path`. */
  function ShellOfStem(stem: string): (r: Option<Shell>)
    ensures r.Some? ==> stem in StemNames(r.value)
    ensures r.None? ==> forall sh :: stem !in StemNames(sh)
  {
    if stem == "bash" then Some(Bash)
    else if stem == "zsh" then Some(Zsh)
    else if stem == "fish" then Some(Fish)
    else if stem == "elvish" then Some(Elvish)
    else if stem == "powershell" || stem == "powershell_ise" then Some(PowerShell)
    else if stem == "nu" || stem == "nushell" then Some(Nushell)
    else None
  }

  /** `Shell::from_shell_path`. */
  function FromShellPath(p: string): Option<Shell> {
    var stem := FileStem(p);
    if stem.None? then None else ShellOfStem(stem.value)
  }

  /** No stem names two shells. */
  lemma StemNamesDisjoint(stem: string, a: Shell, b: Shell)
    requires stem in StemNames(a) && stem in StemNames(b)
    ensures a == b
  {
  }

  /** A shell is found exactly when the path's stem is one of its names. */
  lemma FromShellPathIff(p: string, sh: Shell)
    ensures FromShellPath(p) == Some(sh) <==> FileStem(p).Some? && FileStem(p).value in StemNames(sh)
  {
    var stem := FileStem(p);
    if stem.Some? && stem.value in StemNames(sh) {
      var r := ShellOfStem(stem.value);
      StemNamesDisjoint(stem.value, r.value, sh);
    }
  }

  lemma {:induction false} AfterLastSlashSuffix(dir: string, name: string)
    requires '/' !in name
    requires |dir| == 0 || dir[|dir| - 1] == '/'
    ensures AfterLastSlash(dir + name) == name
  {
    if |name| > 0 {
      var p := dir + name;
      assert p[..|p| - 1] == dir + name[..|name| - 1];
      AfterLastSlashSuffix(dir, name[..|name| - 1]);
    } else {
      assert dir + name == dir;
    }
  }

  /** A file name is its own last component, whatever directory precedes it. */
  lemma FileNameInDir(dir: string, name: string)
    requires |name| > 0 && '/' !in name && name != "." && name != ".."
    ensures FileName(dir + "/" + name) == Some(name)
    ensures FileName(name) == Some(name)
  {
    var p := dir + "/" + name;
    assert StripTrailingSlashes(p) == p;
    AfterLastSlashSuffix(dir + "/", name);
    AfterLastSlashSuffix([], name);
    assert [] + name == name;
  }

  /** The directory part of a path does not matter. */
  lemma FromShellPathInDir(dir: string, name: string)
    requires |name| > 0 && '/' !in name && name != "." && name != ".."
    ensures FromShellPath(dir + "/" + name) == FromShellPath(name)
  {
    FileNameInDir(dir, name);
  }

  /** A path whose file name has no '.' is looked up by that whole name. */
  lemma FromShellPathPlainName(p: string, name: string)
    requires FileName(p) == Some(name) && '.' !in name
    ensures FromShellPath(p) == ShellOfStem(name)
  {
    assert LastDot(name).None?;
  }

  /** An extension after the stem is dropped: "bash.exe" is bash. */
  lemma StemWithExtension(stem: string, ext: string)
    requires |stem| > 0 && '.' !in stem && '.' !in ext
    ensures Stem(stem + "." + ext) == stem
  {
    var n := stem + "." + ext;
    assert n[|stem|] == '.';
    assert n[|stem| + 1..] == ext;
    assert forall k :: 0 <= k < |stem| ==> n[k] == stem[k];
    assert forall k :: |stem| < k < |n| ==> n[k] == ext[k - |stem| - 1];
    var d := LastDot(n);
    assert d.Some?;
    assert d.value == |stem|;
    assert n[..|stem|] == stem;
  }

  /** A bare name without '.' is looked up as it is. */
  lemma FromShellPathBareName(name: string)
    requires |name| > 1 && '/' !in name && '.' !in name
    ensures FromShellPath(name) == ShellOfStem(name)
  {
    FileNameInDir([], name);
    FromShellPathPlainName(name, name);
  }

  lemma StemTableOfDisplay(sh: Shell)
    ensures ShellOfStem(Display(sh)) == Some(sh)
  {
  }

  /** Every shell's display name, used as a path, finds that shell. */
  lemma FromShellPathDisplay(sh: Shell)
    ensures FromShellPath(Display(sh)) == Some(sh)
  {
    var n := Display(sh);
    assert '.' !in n && '/' !in n;
    FileNameInDir([], n);
    FromShellPathPlainName(n, n);
    StemTableOfDisplay(sh);
  }

  /** `path` names `name` inside `dir`. */
  lemma FileNameOfPath(dir: string, name: string, path: string)
    requires |name| > 0 && '/' !in name && name != "." && name != ".."
    requires path == dir + "/" + name
    ensures FileName(path) == Some(name)
  {
    FileNameInDir(dir, name);
  }

  lemma StemNu()
    ensures ShellOfStem("nu") == Some(Nushell)
  {
  }

  lemma StemPowerShellIse()
    ensures ShellOfStem("powershell_ise") == Some(PowerShell)
  {
  }

  lemma StemUnknown()
    ensures ShellOfStem("sh") == None
  {
  }

  lemma StemUpperCase()
    ensures ShellOfStem("BASH") == None
  {
  }

  lemma FromShellPathDirExample()
    ensures FromShellPath("/usr/bin/nu") == Some(Nushell)
  {
    FileNameOfPath("/usr/bin", "nu", "/usr/bin/nu");
    FromShellPathPlainName("/usr/bin/nu", "nu");
    StemNu();
  }

  lemma FromShellPathCurrentDirExample(p: string)
    requires p == "./bash"
    ensures FromShellPath(p) == Some(Bash)
  {
    var name := "bash";
    assert name == [name[0], name[1], name[2], name[3]];
    assert '.' !in name && '/' !in name;
    assert p == "." + "/" + name;
    FileNameOfPath(".", name, p);
    FromShellPathPlainName(p, name);
    StemTableOfDisplay(Bash);
  }

  lemma FromShellPathAliasExample()
    ensures FromShellPath("powershell_ise") == Some(PowerShell)
  {
    FromShellPathBareName("powershell_ise");
    StemPowerShellIse();
  }

  /** `name` with extension `ext` has stem `stem`. */
  lemma StemOfName(stem: string, ext: string, name: string)
    requires |stem| > 0 && '.' !in stem && '.' !in ext && '/' !in stem && '/' !in ext
    requires name == stem + "." + ext
    ensures FileName(name) == Some(name) && Stem(name) == stem
  {
    assert forall k :: 0 <= k < |stem| ==> name[k] == stem[k];
    assert forall k :: |stem| < k < |name| ==> name[k] == ext[k - |stem| - 1];
    assert name[|stem|] == '.';
    assert '/' !in name;
    assert name[0] == stem[0] && |name| > 1;
    FileNameInDir([], name);
    StemWithExtension(stem, ext);
  }

  lemma FromShellPathExtensionExample()
    ensures FromShellPath("nu.exe") == Some(Nushell)
  {
    StemOfName("nu", "exe", "nu.exe");
    StemNu();
  }

  /** An unknown stem is not recognised. */
  lemma FromShellPathUnknownExample()
    ensures FromShellPath("sh") == None
  {
    FromShellPathBareName("sh");
    StemUnknown();
  }

  /** The lookup is case-sensitive, unlike `from_str`. */
  lemma FromShellPathCaseExample()
    ensures FromShellPath("BASH") == None
  {
    FromShellPathBareName("BASH");
    StemUpperCase();
  }

  lemma FromShellPathEmpty()
    ensures FromShellPath("") == None
  {
  }

  // ---------------------------------------------------------------------------
  // to_standard_shell.

  function ToStandardShell(sh: Shell): (r: Option<StandardShell>)
    ensures r.None? <==> sh == Nushell
  {
    match sh
    case Bash => Some(StdBash)
    case Elvish => Some(StdElvish)
    case Fish => Some(StdFish)
    case PowerShell => Some(StdPowerShell)
    case Zsh => Some(StdZsh)
    case Nushell => None
  }

  /** The shell each standard shell corresponds to. */
  function FromStandardShell(std: StandardShell): Shell {
    match std
    case StdBash => Bash
    case StdElvish => Elvish
    case StdFish => Fish
    case StdPowerShell => PowerShell
    case StdZsh => Zsh
  }

  /** The conversion is a bijection between the non-Nushell shells and the standard ones. */
  lemma ToStandardShellBijective(sh: Shell, std: StandardShell)
    ensures ToStandardShell(sh) == Some(std) <==> FromStandardShell(std) == sh
  {
  }
}
