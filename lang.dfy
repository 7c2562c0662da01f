/**
 * The project languages of the back end: their short codes (the `Display` and
 * `FromStr` implementations), the name of the file a new project starts with,
 * and where the per-language template files are read from.
 */
module ProjectLanguages {
  import opened Wrappers

  datatype ProjectLang = Python | JavaScript | TypeScript | Rust | C | CPlusPlus | CSharp | Bash | Java

  /** Directory holding one sub-directory of templates per language code. */
  const LangPath: string := "./back_end/languages"

  /** The error `from_str` reports for an unknown code. */
  const InvalidLanguage: string := "Invalid language"

  /** `Display`: the short code of a language. */
  function Code(lang: ProjectLang): (code: string)
    ensures 1 <= |code| <= 4
  {
    match lang
    case Python => "py"
    case JavaScript => "js"
    case TypeScript => "ts"
    case Rust => "rs"
    case C => "c"
    case CPlusPlus => "cpp"
    case CSharp => "cs"
    case Bash => "sh"
    case Java => "java"
  }

  /** `FromStr`: succeeds exactly on the nine codes, each naming the language it displays as. */
  function FromStr(s: string): (r: Result<ProjectLang, string>)
    ensures r.Ok? ==> s == Code(r.value)
    ensures r.Err? ==> r.error == InvalidLanguage && forall l: ProjectLang :: s != Code(l)
  {
    match s
    case "py" => Ok(Python)
    case "js" => Ok(JavaScript)
    case "ts" => Ok(TypeScript)
    case "rs" => Ok(Rust)
    case "c" => Ok(C)
    case "cpp" => Ok(CPlusPlus)
    case "cs" => Ok(CSharp)
    case "sh" => Ok(Bash)
    case "java" => Ok(Java)
    case _ => Err(InvalidLanguage)
  }

  /** Parsing a displayed code gives the language back. */
  lemma FromStrCode(lang: ProjectLang)
    ensures FromStr(Code(lang)) == Ok(lang)
  {
    match lang
    case Python =>
    case JavaScript =>
    case TypeScript =>
    case Rust =>
    case C =>
    case CPlusPlus =>
    case CSharp =>
    case Bash =>
    case Java =>
  }

  /** No two languages share a code. */
  lemma CodesDistinct(a: ProjectLang, b: ProjectLang)
    ensures Code(a) == Code(b) ==> a == b
  {
    if Code(a) == Code(b) {
      FromStrCode(a);
      FromStrCode(b);
      calc {
        Ok(a);
        FromStr(Code(a));
        FromStr(Code(b));
        Ok(b);
      }
    }
  }

  /** Name of the file a new project starts with: `main.<code>`, except a README for Rust and C#. */
  function InitialFileName(lang: ProjectLang): (name: string)
    ensures (lang == Rust || lang == CSharp) <==> name == "README.md"
    ensures lang != Rust && lang != CSharp ==> name == "main." + Code(lang)
  {
    match lang
    case Python => "main.py"
    case JavaScript => "main.js"
    case TypeScript => "main.ts"
    case C => "main.c"
    case CPlusPlus => "main.cpp"
    case Bash => "main.sh"
    case Java => "main.java"
    case Rust | CSharp => "README.md"
  }

  /** Path of the language's `project.toml` template. */
  function ProjectTomlPath(lang: ProjectLang): (path: string)
    ensures path == "./back_end/languages/" + Code(lang) + "/project.toml"
  {
    LangPath + "/" + Code(lang) + "/project.toml"
  }

  /** Path of the language's initial file contents. */
  function InitFilePath(lang: ProjectLang): (path: string)
    ensures path == "./back_end/languages/" + Code(lang) + "/init"
  {
    LangPath + "/" + Code(lang) + "/init"
  }

  /**
   * `get_project_toml`: reads the template through `readToString`, which stands for
   * the filesystem; its error is passed through unchanged.
   */
  function GetProjectToml<E>(lang: ProjectLang, readToString: string -> Result<string, E>): (r: Result<string, E>)
    ensures r == readToString("./back_end/languages/" + Code(lang) + "/project.toml")
  {
    readToString(ProjectTomlPath(lang))
  }

  /** `get_initial_file`: the file name paired with the template contents, or the read error. */
  function GetInitialFile<E>(lang: ProjectLang, readToString: string -> Result<string, E>): (r: Result<(string, string), E>)
    ensures readToString(InitFilePath(lang)).Err? <==> r.Err?
    ensures r.Err? ==> r.error == readToString(InitFilePath(lang)).error
    ensures r.Ok? ==> r.value.0 == InitialFileName(lang) && r.value.1 == readToString(InitFilePath(lang)).value
  {
    match readToString(InitFilePath(lang))
    case Ok(content) => Ok((InitialFileName(lang), content))
    case Err(e) => Err(e)
  }
}
