/** Where `run_tpt_report_downloader` looks for things, derived from the
    configured `main_script_path`: the virtual environment sits beside the
    project directory and its interpreter under `bin/python`. The entry point
    is `main.py` inside the project directory when that is absolute, and
    otherwise inside the project directory taken below the script's own
    directory. The requirements file is `requirements.txt` inside the project
    directory as configured, so a relative one is taken below the working
    directory, as is the environment. Paths are lexical: a path is a list of
    components, absolute or relative; `resolve()` is modelled only as making a
    relative path absolute against the process's working directory. */
module ToolLayout {

  datatype Path = Path(absolute: bool, parts: seq<string>)

  /** `a / b`: an absolute right operand replaces the left one. */
  function Join(a: Path, b: Path): Path
  {
    if b.absolute then b else Path(a.absolute, a.parts + b.parts)
  }

  function Child(a: Path, name: string): Path
  {
    Path(a.absolute, a.parts + [name])
  }

  /** `p.parent`; the parent of a root (or of the empty relative path) is itself. */
  function Parent(p: Path): Path
  {
    if |p.parts| == 0 then p else Path(p.absolute, p.parts[..|p.parts| - 1])
  }

  /** `p.resolve()` without symlinks or `..`: anchor a relative path at `cwd`. */
  function Resolve(p: Path, cwd: Path): Path
  {
    if p.absolute then p else Join(cwd, p)
  }

  datatype Layout = Layout(
    projectDir: Path,
    venvDir: Path,
    pythonBin: Path,
    mainPy: Path,
    requirements: Path)

  /** The paths the invoker builds from `main_script_path` (already
      `expanduser`ed), the process working directory `cwd` and the
      directory of the watchdog script `baseDir`, which `__file__.resolve()`
      makes absolute. */
  function Locate(target: Path, cwd: Path, baseDir: Path): (l: Layout)
    requires cwd.absolute && baseDir.absolute
    // the environment is a sibling of the resolved project directory
    ensures Parent(l.venvDir) == Parent(Resolve(target, cwd))
    ensures l.venvDir.absolute && |l.venvDir.parts| > 0 && l.venvDir.parts[|l.venvDir.parts| - 1] == ".venv"
    // the interpreter is `bin/python` inside the environment
    ensures Parent(Parent(l.pythonBin)) == l.venvDir
    ensures |l.pythonBin.parts| >= 2 && l.pythonBin.parts[|l.pythonBin.parts| - 2..] == ["bin", "python"]
    // the entry point is an absolute `main.py` in the project directory,
    // a relative one taken below the script's own directory
    ensures l.mainPy.absolute && |l.mainPy.parts| > 0 && l.mainPy.parts[|l.mainPy.parts| - 1] == "main.py"
    ensures Parent(l.mainPy) == if target.absolute then target else Join(baseDir, target)
    // requirements and working directory are the configured project directory
    ensures Parent(l.requirements) == l.projectDir == target
    ensures |l.requirements.parts| > 0 && l.requirements.parts[|l.requirements.parts| - 1] == "requirements.txt"
  {
    var venvDir := Child(Parent(Resolve(target, cwd)), ".venv");
    var bin := Child(venvDir, "bin");
    var local := Child(target, "main.py");
    var mainPy := if local.absolute then local else Resolve(Join(baseDir, local), cwd);
    var projectDir := if target.absolute then target else Join(baseDir, target);
    assert mainPy == Child(projectDir, "main.py");
    ParentOfChild(Parent(Resolve(target, cwd)), ".venv");
    ParentOfChild(venvDir, "bin");
    ParentOfChild(bin, "python");
    ParentOfChild(projectDir, "main.py");
    ParentOfChild(target, "requirements.txt");
    Layout(target, venvDir, Child(bin, "python"), mainPy, Child(target, "requirements.txt"))
  }

  /** `(a / name).parent` is `a`. */
  lemma ParentOfChild(a: Path, name: string)
    ensures Parent(Child(a, name)) == a
  {
    assert (a.parts + [name])[..|a.parts|] == a.parts;
  }

  /** Appending the same components to two paths keeps them apart. */
  lemma AppendCancel(a: seq<string>, b: seq<string>, t: seq<string>)
    ensures a + t == b + t ==> a == b
  {
    if a + t == b + t {
      assert |a| == |b|;
      assert a == (a + t)[..|a|];
    }
  }

  /** For an absolute project directory, the entry point is `main.py` inside
      the directory the downloader is run from. */
  lemma EntryPointInProject(target: Path, cwd: Path, baseDir: Path)
    requires cwd.absolute && baseDir.absolute && target.absolute
    ensures Parent(Locate(target, cwd, baseDir).mainPy) == target
  {
  }

  /** For a relative project directory, the entry point is anchored at the
      script's own directory while the environment is anchored at the working
      directory: the two disagree whenever those directories differ. */
  lemma RelativeProjectSplits(target: Path, cwd: Path, baseDir: Path)
    requires cwd.absolute && baseDir.absolute && !target.absolute
    requires cwd != baseDir
    ensures Parent(Locate(target, cwd, baseDir).mainPy) == Resolve(target, baseDir)
    ensures Parent(Locate(target, cwd, baseDir).venvDir) == Parent(Resolve(target, cwd))
    ensures Parent(Locate(target, cwd, baseDir).mainPy) != Resolve(target, cwd)
  {
    var m := Parent(Locate(target, cwd, baseDir).mainPy);
    assert m.parts == baseDir.parts + target.parts;
    AppendCancel(cwd.parts, baseDir.parts, target.parts);
  }
}
