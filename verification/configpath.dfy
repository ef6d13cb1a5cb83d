/** Where configuration files live (`config/utils.cpp`): under
    `$XDG_CONFIG_HOME/budgie-desktop`, else `$HOME/.config/budgie-desktop`.
    The environment is a parameter; an unset variable is `None`. */
module ConfigPaths {
  import opened Wrappers

  /** A POSIX path has a file name when it is not empty and does not end in
      a separator. */
  predicate HasFilename(p: string) {
    |p| > 0 && p[|p| - 1] != '/'
  }

  predicate IsAbsolute(p: string) {
    |p| > 0 && p[0] == '/'
  }

  /** `std::filesystem::path::operator/=` on POSIX: an absolute right-hand
      side replaces the path; otherwise a separator is added when the path
      has a file name, then the right-hand side. */
  function Append(path: string, rhs: string): (r: string)
    ensures IsAbsolute(rhs) ==> r == rhs
    ensures !IsAbsolute(rhs) && HasFilename(path) ==> r == path + "/" + rhs
    ensures !IsAbsolute(rhs) && !HasFilename(path) ==> r == path + rhs
  {
    if IsAbsolute(rhs) then rhs
    else if HasFilename(path) then path + "/" + rhs
    else path + rhs
  }

  /** `ConfigUtils::getConfigPath`. Without either variable the source stops
      the process (`qFatal`); the model answers nothing. */
  function GetConfigPath(name: string, xdgConfigHome: Option<string>, home: Option<string>): (r: Option<string>)
    ensures r.None? <==> xdgConfigHome.None? && home.None?
  {
    var base :-
      match xdgConfigHome
      case Some(x) => Some(Append("", x))
      case None =>
        match home
        case None => None
        case Some(h) => Some(Append(Append("", h), ".config"));
    Some(Append(Append(base, "budgie-desktop"), name))
  }

  /** Below a directory with a file name, a relative name lands in its
      `budgie-desktop` subdirectory. */
  lemma BelowDirectory(base: string, name: string)
    requires HasFilename(base) && !IsAbsolute(name)
    ensures Append(Append(base, "budgie-desktop"), name) == base + "/budgie-desktop/" + name
  {
    assert !IsAbsolute("budgie-desktop");
    var dir := base + "/" + "budgie-desktop";
    assert Append(base, "budgie-desktop") == dir;
    assert dir[|dir| - 1] == 'p';
    assert dir + "/" + name == base + "/budgie-desktop/" + name;
  }

  /** With `XDG_CONFIG_HOME` set to a directory written without a trailing
      separator, the file is `budgie-desktop/<name>` inside it, whatever
      `HOME` is. */
  lemma XdgConfigHomePath(name: string, x: string, home: Option<string>)
    requires HasFilename(x) && !IsAbsolute(name)
    ensures GetConfigPath(name, Some(x), home) == Some(x + "/budgie-desktop/" + name)
  {
    assert Append("", x) == x by {
      assert "" + x == x;
    }
    BelowDirectory(x, name);
  }

  /** Without `XDG_CONFIG_HOME`, `HOME` stands in with `.config` appended,
      so the file is `.config/budgie-desktop/<name>` inside `HOME`. */
  lemma HomePath(name: string, h: string)
    requires HasFilename(h) && !IsAbsolute(name)
    ensures GetConfigPath(name, None, Some(h)) == GetConfigPath(name, Some(h + "/.config"), None)
    ensures GetConfigPath(name, None, Some(h)) == Some(h + "/.config" + "/budgie-desktop/" + name)
  {
    assert Append("", h) == h by {
      assert "" + h == h;
    }
    assert !IsAbsolute(".config");
    var conf := h + "/.config";
    assert Append(h, ".config") == conf by {
      assert "/" + ".config" == "/.config";
    }
    assert Append("", conf) == conf by {
      assert "" + conf == conf;
    }
    assert conf[|conf| - 1] == 'g';
    BelowDirectory(conf, name);
  }

  predicate EndsWith(p: string, suffix: string) {
    |p| >= |suffix| && p[|p| - |suffix|..] == suffix
  }

  /** Below any directory, a relative name ends up as
      `budgie-desktop/<name>`. */
  lemma SuffixBelowAnyDirectory(base: string, name: string)
    requires !IsAbsolute(name)
    ensures EndsWith(Append(Append(base, "budgie-desktop"), name), "budgie-desktop/" + name)
  {
    assert !IsAbsolute("budgie-desktop");
    var front := if HasFilename(base) then base + "/" else base;
    var dir := front + "budgie-desktop";
    assert Append(base, "budgie-desktop") == dir;
    assert dir[|dir| - 1] == 'p';
    var suffix := "budgie-desktop/" + name;
    assert dir + "/" + name == front + suffix;
    assert (front + suffix)[|front|..] == suffix;
  }

  /** For a relative name the path always ends in `budgie-desktop/<name>`. */
  lemma RelativeNameSuffix(name: string, xdgConfigHome: Option<string>, home: Option<string>)
    requires !IsAbsolute(name)
    requires GetConfigPath(name, xdgConfigHome, home).Some?
    ensures EndsWith(GetConfigPath(name, xdgConfigHome, home).value, "budgie-desktop/" + name)
  {
    var base := match xdgConfigHome
      case Some(x) => Append("", x)
      case None => Append(Append("", home.value), ".config");
    SuffixBelowAnyDirectory(base, name);
  }

  /** An absolute name is used as it is. */
  lemma AbsoluteNameIsKept(name: string, xdgConfigHome: Option<string>, home: Option<string>)
    requires IsAbsolute(name)
    requires xdgConfigHome.Some? || home.Some?
    ensures GetConfigPath(name, xdgConfigHome, home) == Some(name)
  {
  }

  /** `XDG_CONFIG_HOME` set but empty is taken as given, not as unset: the
      path is relative to the working directory. */
  lemma EmptyXdgConfigHomeIsRelative(name: string, home: Option<string>)
    requires !IsAbsolute(name)
    ensures GetConfigPath(name, Some(""), home) == Some("budgie-desktop/" + name)
    ensures !IsAbsolute(GetConfigPath(name, Some(""), home).value)
  {
    assert !IsAbsolute("budgie-desktop");
    assert Append("", "") == "";
    assert Append("", "budgie-desktop") == "budgie-desktop" by {
      assert "" + "budgie-desktop" == "budgie-desktop";
    }
    assert HasFilename("budgie-desktop");
    assert "budgie-desktop" + "/" + name == "budgie-desktop/" + name;
  }
}
