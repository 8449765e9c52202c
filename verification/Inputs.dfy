/** Which paths feed which part of a fingerprint: the table and its four rules. */
module Inputs {

  /** A path from the repository root, component by component, a character for each byte. */
  type Path = seq<string>

  datatype Key = Workspace | Schema

  datatype Part = Toolchain | Dependencies | SchemaPart | Services | Recipe

  datatype Selector =
    | Exactly(path: Path)
    | Name(name: string)
    | NamePrefix(prefix: string)
    | Dir(dir: Path)

  datatype Class = Class(part: Part, key: Key, selectors: seq<Selector>)

  function PartName(part: Part): string {
    match part
    case Toolchain => "toolchain"
    case Dependencies => "dependencies"
    case SchemaPart => "schema"
    case Services => "services"
    case Recipe => "recipe"
  }

  predicate Continues(s: string, i: nat) {
    i < |s| && 0x80 as char <= s[i] <= 0xBF as char
  }

  predicate In(s: string, i: nat, low: nat, high: nat)
    requires low < 256 && high < 256
  {
    i < |s| && low as char <= s[i] <= high as char
  }

  /** Well-formed UTF-8, byte by byte. */
  predicate IsUtf8(s: string)
    decreases |s|
  {
    if s == "" then true
    else if In(s, 0, 0, 0x7F) then IsUtf8(s[1..])
    else if In(s, 0, 0xC2, 0xDF) then Continues(s, 1) && IsUtf8(s[2..])
    else if In(s, 0, 0xE0, 0xEF) then
      && Continues(s, 1) && Continues(s, 2)
      && (s[0] == 0xE0 as char ==> s[1] >= 0xA0 as char)
      && (s[0] == 0xED as char ==> s[1] <= 0x9F as char)
      && IsUtf8(s[3..])
    else if In(s, 0, 0xF0, 0xF4) then
      && Continues(s, 1) && Continues(s, 2) && Continues(s, 3)
      && (s[0] == 0xF0 as char ==> s[1] >= 0x90 as char)
      && (s[0] == 0xF4 as char ==> s[1] <= 0x8F as char)
      && IsUtf8(s[4..])
    else false
  }

  predicate Matches(selector: Selector, path: Path) {
    match selector
    case Exactly(exact) => path == exact
    case Name(name) => path != [] && IsUtf8(path[|path| - 1]) && path[|path| - 1] == name
    case NamePrefix(prefix) => path != [] && IsUtf8(path[|path| - 1]) && prefix <= path[|path| - 1]
    case Dir(dir) => dir < path
  }

  predicate Covers(class_: Class, path: Path) {
    exists i :: 0 <= i < |class_.selectors| && Matches(class_.selectors[i], path)
  }

  const TOOLCHAIN := Class(Toolchain, Workspace, [
    Name(".nvmrc"), Name(".node-version"), Name(".tool-versions"), Name("mise.toml"), Name(".mise.toml"),
    Name(".python-version"), Name(".ruby-version"), Name(".java-version"), Name("rust-toolchain"),
    Name("rust-toolchain.toml")
  ])

  const DEPENDENCIES := Class(Dependencies, Workspace, [
    Name("package.json"), Name(".npmrc"), Name(".yarnrc.yml"), Name("pnpm-workspace.yaml"), Name("pnpm-lock.yaml"),
    Name("package-lock.json"), Name("npm-shrinkwrap.json"), Name("yarn.lock"), Name("bun.lock"), Name("bun.lockb"),
    Name("Cargo.toml"), Name("Cargo.lock"), Name("go.mod"), Name("go.sum"), Name("pyproject.toml"),
    Name("poetry.lock"), Name("uv.lock"), Name("requirements.txt"), Name("Pipfile.lock"), Name("Gemfile"),
    Name("Gemfile.lock"), Name("composer.json"), Name("composer.lock")
  ])

  const SERVICES := Class(Services, Workspace, [
    NamePrefix("Dockerfile"), NamePrefix("docker-compose"), Name(".dockerignore"), Name("compose.yml"),
    Name("compose.yaml"), Exactly(["supabase", "config.toml"])
  ])

  const RECIPE := Class(Recipe, Workspace, [
    Exactly(["nodal.toml"]), Exactly(["turbo.json"]), Exactly(["nx.json"]), Exactly(["lerna.json"]),
    Exactly([".env.example"])
  ])

  const SCHEMA := Class(SchemaPart, Schema, [
    Dir(["supabase", "migrations"]), Exactly(["supabase", "config.toml"]), Exactly(["supabase", "seed.sql"]),
    Dir(["prisma", "migrations"]), Exactly(["prisma", "schema.prisma"]), Dir(["db", "migrations"]),
    Dir(["db", "migrate"]), Dir(["migrations"])
  ])

  /** Every class, in the order a fingerprint composes them. */
  const CLASSES := [TOOLCHAIN, DEPENDENCIES, SERVICES, RECIPE, SCHEMA]

  // What the rules say of paths.

  /** A path a selector is about: the very path; a path ending in the name; one ending in a name that starts
      so; and one under the directory, at any depth, but neither itself nor a sibling whose name only
      starts alike. A name that is no text is not looked at. */
  ghost predicate IsAbout(selector: Selector, path: Path) {
    match selector
    case Exactly(exact) => path == exact
    case Name(name) => IsUtf8(name) && exists dir: Path :: path == dir + [name]
    case NamePrefix(prefix) => exists dir: Path, rest :: IsUtf8(prefix + rest) && path == dir + [prefix + rest]
    case Dir(dir) => exists below: Path :: below != [] && path == dir + below
  }

  lemma MatchesWhatItIsAbout(selector: Selector, path: Path)
    ensures Matches(selector, path) <==> IsAbout(selector, path)
  {
    hide IsUtf8;
    if Matches(selector, path) {
      match selector
      case Exactly(_) =>
      case Name(name) => assert path == path[..|path| - 1] + [name];
      case NamePrefix(prefix) =>
        var last := path[|path| - 1];
        assert last == prefix + last[|prefix|..];
        assert path == path[..|path| - 1] + [prefix + last[|prefix|..]];
      case Dir(dir) => assert path == dir + path[|dir|..];
    }
  }

  /** A class covers exactly what one of its rows is about. */
  lemma CoversWhatItIsAbout(class_: Class, path: Path)
    ensures Covers(class_, path) <==> exists selector :: selector in class_.selectors && IsAbout(selector, path)
  {
    hide Matches, IsAbout;
    forall selector: Selector
      ensures Matches(selector, path) <==> IsAbout(selector, path)
    {
      MatchesWhatItIsAbout(selector, path);
    }
  }
}
