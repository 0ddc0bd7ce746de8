/** The start-up script `scripts/railway_start.py`: boolean environment flags, making the
    project importable for child processes, the optional superuser, and the optional seeding
    of projects from the bundled JSON file. The environment is a map; the database, the file
    system and the child processes are inputs. */
module Railway {
  import opened Wrappers
  import opened Text
  import opened Json
  import opened Dedup

  /** The environment as `os.environ` holds it. */
  type Env = map<string, string>

  /** The spellings a flag accepts as true, after trimming and lower-casing. */
  const TRUE_WORDS: set<string> := {"1", "true", "yes", "on"}

  // ---------------------------------------------------------------------------------------
  // Flags

  /** `env_bool(name, default)`: an unset variable gives the default; a set one, even an
      empty one, is true exactly when its trimmed lower-cased value is an accepted word. */
  function EnvBool(env: Env, name: string, default: bool): (r: bool)
    ensures name !in env ==> r == default
    ensures name in env ==> (r <==> Lower(Strip(Py, env[name])) in TRUE_WORDS)
  {
    if name !in env then default else Lower(Strip(Py, env[name])) in TRUE_WORDS
  }

  /** Surrounding whitespace and letter case do not matter: two values with the same trimmed
      lower-cased form read the same. */
  lemma EnvBoolIgnoresCaseAndPadding(env: Env, name: string, v: string, w: string, default: bool)
    requires Lower(Strip(Py, v)) == Lower(Strip(Py, w))
    ensures EnvBool(env[name := v], name, default) == EnvBool(env[name := w], name, default)
  {
  }

  /** A variable that is set but empty is false, whatever the default. */
  lemma EnvBoolEmptyIsFalse(env: Env, name: string, default: bool)
    requires name in env && AllSpace(Py, env[name])
    ensures !EnvBool(env, name, default)
  {
    assert Strip(Py, env[name]) == [];
  }

  /** An accepted word in upper case with padding around it is true. */
  lemma EnvBoolPaddedUpperCase(env: Env, name: string)
    requires name in env && env[name] == " TRUE\n"
    ensures EnvBool(env, name, false)
  {
    var v := env[name];
    assert LeadingSpace(Py, v) == 1;
    assert TrailingSpace(Py, v) == 5;
    assert Strip(Py, v) == "TRUE";
    assert Lower("TRUE") == "true";
  }

  // ---------------------------------------------------------------------------------------
  // PYTHONPATH

  const PYTHONPATH := "PYTHONPATH"
  /** `os.pathsep` on the POSIX hosts the script runs on. */
  const PATHSEP: char := ':'

  /** The non-empty segments of a PYTHONPATH value. */
  function Segments(value: string): (segs: seq<string>)
    ensures forall k :: 0 <= k < |segs| ==> segs[k] != "" && PATHSEP !in segs[k]
  {
    SplitPartsFree(value, PATHSEP);
    NonEmpty(Split(value, [PATHSEP]))
  }

  /** `ensure_project_on_pythonpath_env()` for the project directory `dir`. */
  function EnsureOnPythonPath(env: Env, dir: string): (r: Env)
    ensures var segs := Segments(if PYTHONPATH in env then env[PYTHONPATH] else "");
      && (dir in segs ==> r == env)
      && (dir !in segs ==> r == env[PYTHONPATH := Join([PATHSEP], [dir] + segs)])
  {
    var current := if PYTHONPATH in env then env[PYTHONPATH] else "";
    var parts := Segments(current);
    if dir in parts then env else env[PYTHONPATH := Join([PATHSEP], [dir] + parts)]
  }

  /** After the update the directory is the first segment, followed by the earlier non-empty
      segments in their order. */
  lemma PythonPathSegmentsAfter(env: Env, dir: string)
    requires dir != "" && PATHSEP !in dir
    requires dir !in Segments(if PYTHONPATH in env then env[PYTHONPATH] else "")
    ensures Segments(EnsureOnPythonPath(env, dir)[PYTHONPATH])
      == [dir] + Segments(if PYTHONPATH in env then env[PYTHONPATH] else "")
  {
    var segs := Segments(if PYTHONPATH in env then env[PYTHONPATH] else "");
    var parts := [dir] + segs;
    assert forall k :: 0 <= k < |parts| ==> PATHSEP !in parts[k] && parts[k] != "" by {
      forall k | 0 <= k < |parts|
        ensures PATHSEP !in parts[k] && parts[k] != ""
      {
        if k > 0 {
          assert parts[k] == segs[k - 1];
        }
      }
    }
    SplitJoin(parts, PATHSEP);
  }

  /** Running the update twice is running it once. */
  lemma EnsureOnPythonPathIdempotent(env: Env, dir: string)
    requires dir != "" && PATHSEP !in dir
    ensures EnsureOnPythonPath(EnsureOnPythonPath(env, dir), dir) == EnsureOnPythonPath(env, dir)
  {
    var segs := Segments(if PYTHONPATH in env then env[PYTHONPATH] else "");
    if dir !in segs {
      PythonPathSegmentsAfter(env, dir);
      var r := EnsureOnPythonPath(env, dir);
      assert Segments(r[PYTHONPATH])[0] == dir;
    }
  }

  // ---------------------------------------------------------------------------------------
  // Superuser

  const CREATE_SUPERUSER := "CREATE_SUPERUSER"
  const SUPERUSER_USERNAME := "DJANGO_SUPERUSER_USERNAME"
  const SUPERUSER_PASSWORD := "DJANGO_SUPERUSER_PASSWORD"
  const SUPERUSER_EMAIL := "DJANGO_SUPERUSER_EMAIL"

  /** What `ensure_superuser_if_requested()` does. */
  datatype SuperuserOutcome =
    | NotRequested
    | MissingCredentials
    | AlreadyExists(username: string)
    | CreatedUser(username: string, email: Option<string>, password: string)

  /** `os.getenv(name) or ""`. */
  function EnvOrEmpty(env: Env, name: string): string
  {
    if name in env then env[name] else ""
  }

  /** The superuser step; `userExists` is the database lookup by user name. */
  function EnsureSuperuser(env: Env, userExists: string -> bool): (r: SuperuserOutcome)
    ensures r.NotRequested? <==> !EnvBool(env, CREATE_SUPERUSER, false)
    ensures r.MissingCredentials? <==>
      (EnvBool(env, CREATE_SUPERUSER, false)
       && (AllSpace(Py, EnvOrEmpty(env, SUPERUSER_USERNAME)) || EnvOrEmpty(env, SUPERUSER_PASSWORD) == ""))
    ensures r.AlreadyExists? || r.CreatedUser? ==>
      && r.username == Strip(Py, EnvOrEmpty(env, SUPERUSER_USERNAME)) && r.username != ""
      && EnvOrEmpty(env, SUPERUSER_PASSWORD) != ""
    ensures r.AlreadyExists? ==> userExists(r.username)
    ensures r.CreatedUser? ==>
      && !userExists(r.username)
      && r.password == env[SUPERUSER_PASSWORD]
      && (r.email.None? <==> AllSpace(Py, EnvOrEmpty(env, SUPERUSER_EMAIL)))
      && (r.email.Some? ==> r.email.value == Strip(Py, env[SUPERUSER_EMAIL]))
  {
    if !EnvBool(env, CREATE_SUPERUSER, false) then NotRequested
    else
      var username := Strip(Py, EnvOrEmpty(env, SUPERUSER_USERNAME));
      var password := EnvOrEmpty(env, SUPERUSER_PASSWORD);
      var email := Strip(Py, EnvOrEmpty(env, SUPERUSER_EMAIL));
      if username == "" || password == "" then MissingCredentials
      else if userExists(username) then AlreadyExists(username)
      else CreatedUser(username, if email == "" then None else Some(email), password)
  }

  /** Booting again after the user was created does nothing. */
  lemma EnsureSuperuserIdempotent(env: Env, userExists: string -> bool, after: string -> bool)
    requires EnsureSuperuser(env, userExists).CreatedUser?
    requires after(EnsureSuperuser(env, userExists).username)
    ensures EnsureSuperuser(env, after) == AlreadyExists(EnsureSuperuser(env, userExists).username)
  {
  }

  // ---------------------------------------------------------------------------------------
  // Seeding

  const SEED_PROJECTS := "SEED_PROJECTS"
  const SEED_PROJECTS_FORCE := "SEED_PROJECTS_FORCE"

  /** The nested `norm(s)`: trimmed, with every whitespace run turned into one space. */
  function Norm(s: string): (r: string)
    ensures IsCollapsed(Py, r)
    ensures r == "" <==> AllSpace(Py, s)
    ensures Words(Py, r) == Words(Py, Strip(Py, s))
  {
    var t := Strip(Py, s);
    WordsOfJoin(Py, Words(Py, t));
    Collapse(Py, t)
  }

  /** Normalising a normalised value changes nothing. */
  lemma NormIdempotent(s: string)
    ensures Norm(Norm(s)) == Norm(s)
  {
    var r := Norm(s);
    StripStripped(Py, r);
  }

  /** A project as the seeder stores it; the image is always left empty. */
  datatype SeedRow = SeedRow(nombre: string, descripcion: string, categoria: string, subcategoria: string)

  /** `norm(a or b or "")` on JSON values: `None` when the chosen value is a truthy
      non-string, whose `.strip()` raises. */
  function NormOr(a: Option<Json>, b: Option<Json>): (r: Option<string>)
    ensures !PyTruthyOpt(a) && !PyTruthyOpt(b) ==> r == Some("")
    ensures PyTruthyOpt(a) ==> (r.Some? <==> a.value.JStr?) && (a.value.JStr? ==> r.value == Norm(a.value.s))
    ensures !PyTruthyOpt(a) && PyTruthyOpt(b) ==> (r.Some? <==> b.value.JStr?) && (b.value.JStr? ==> r.value == Norm(b.value.s))
  {
    match PyTextOrEmpty(PyOr(a, b))
    case None => None
    case Some(t) => Some(Norm(t))
  }

  /** The name of one item: non-objects and blank names are skipped; a truthy non-string
      name crashes. The title wins over `nombre` unless it is missing or falsy. */
  function SeedName(item: Json): (n: NameOf)
    ensures !item.JObj? ==> n == Unnamed
    ensures item.JObj? ==> var t := NormOr(Get(item.fields, "titulo"), Get(item.fields, "nombre"));
      && (n.Unreadable? <==> t.None?)
      && (n.Unnamed? <==> t == Some(""))
      && (n.Named? ==> n.name == t.value)
    ensures n.Named? ==> n.name != "" && IsCollapsed(Py, n.name)
  {
    if !item.JObj? then Unnamed
    else
      match NormOr(Get(item.fields, "titulo"), Get(item.fields, "nombre"))
      case None => Unreadable
      case Some(t) => if t == "" then Unnamed else Named(t)
  }

  /** The row for a kept item, or `None` when one of its fields is a truthy non-string. */
  function BuildSeedRow(item: Json, nombre: string): (r: Option<SeedRow>)
    ensures r.Some? ==> r.value.nombre == nombre
    ensures r.Some? ==>
      IsCollapsed(Py, r.value.descripcion) && IsCollapsed(Py, r.value.categoria) && IsCollapsed(Py, r.value.subcategoria)
    ensures item.JObj? ==> var f := item.fields;
      (r.Some? <==>
        && NormOr(Get(f, "categoria"), None).Some?
        && NormOr(Get(f, "sub"), Get(f, "subcategoria")).Some?
        && NormOr(Get(f, "descripcion"), None).Some?)
    ensures r.Some? ==> item.JObj? && var f := item.fields;
      r.value.subcategoria == NormOr(Get(f, "sub"), Get(f, "subcategoria")).value
  {
    if !item.JObj? then None
    else
      var f := item.fields;
      var categoria := NormOr(Get(f, "categoria"), None);
      var sub := NormOr(Get(f, "sub"), Get(f, "subcategoria"));
      var descripcion := NormOr(Get(f, "descripcion"), None);
      if categoria.None? || sub.None? || descripcion.None? then None
      else Some(SeedRow(nombre, descripcion.value, categoria.value, sub.value))
  }

  /** The subcategory falls back to `subcategoria` only when `sub` is missing or falsy. */
  lemma SeedSubcategoryFallback(f: seq<(string, Json)>, nombre: string)
    requires BuildSeedRow(JObj(f), nombre).Some?
    ensures PyTruthyOpt(Get(f, "sub")) ==> BuildSeedRow(JObj(f), nombre).value.subcategoria == Norm(Get(f, "sub").value.s)
    ensures !PyTruthyOpt(Get(f, "sub")) && PyTruthyOpt(Get(f, "subcategoria")) ==>
      BuildSeedRow(JObj(f), nombre).value.subcategoria == Norm(Get(f, "subcategoria").value.s)
    ensures !PyTruthyOpt(Get(f, "sub")) && !PyTruthyOpt(Get(f, "subcategoria")) ==>
      BuildSeedRow(JObj(f), nombre).value.subcategoria == ""
  {
  }

  /** How `seed_projects_if_requested()` ends; `deleted` says whether the existing rows were
      removed first. */
  datatype SeedOutcome =
    | SeedNotRequested
    | SkippedExisting
    | JsonNotFound
    | SeedCrashed(deleted: bool)
    | EmptyOrInvalid(deleted: bool)
    | NothingToCreate(deleted: bool)
    | Seeded(deleted: bool, rows: seq<SeedRow>)

  /** The seeding step. `existing` is the number of stored projects; `file` is `None` when no
      candidate file exists, `Some(None)` when it is not valid JSON, and otherwise the decoded
      value. */
  method SeedProjects(env: Env, existing: nat, file: Option<Option<Json>>) returns (r: SeedOutcome)
    ensures r.SeedNotRequested? <==> !EnvBool(env, SEED_PROJECTS, false)
    ensures r.SkippedExisting? <==> EnvBool(env, SEED_PROJECTS, false) && existing > 0 && !EnvBool(env, SEED_PROJECTS_FORCE, false)
    ensures r.JsonNotFound? <==>
      EnvBool(env, SEED_PROJECTS, false) && (existing == 0 || EnvBool(env, SEED_PROJECTS_FORCE, false)) && file.None?
    ensures r.SeedCrashed? || r.EmptyOrInvalid? || r.NothingToCreate? || r.Seeded? ==>
      r.deleted == (existing > 0 && EnvBool(env, SEED_PROJECTS_FORCE, false))
    ensures r.EmptyOrInvalid? <==>
      && EnvBool(env, SEED_PROJECTS, false)
      && (existing == 0 || EnvBool(env, SEED_PROJECTS_FORCE, false))
      && file.Some? && file.value.Some? && !(file.value.value.JArr? && file.value.value.items != [])
    ensures file.Some? && file.value.Some? && file.value.value.JArr? ==> var items := file.value.value.items;
      var names := NamesOf(items, SeedName);
      && (r.SeedCrashed? <==>
            (EnvBool(env, SEED_PROJECTS, false) && (existing == 0 || EnvBool(env, SEED_PROJECTS_FORCE, false))
             && items != [] && Crashes(items, names, BuildSeedRow)))
      && (r.Seeded? ==> RowsFor(items, names, BuildSeedRow, Kept(names), r.rows))
    ensures r.Seeded? ==> r.rows != []
    ensures r.Seeded? ==> forall a, b :: 0 <= a < b < |r.rows| ==> Lower(r.rows[a].nombre) != Lower(r.rows[b].nombre)
    ensures r.Seeded? ==> forall a :: 0 <= a < |r.rows| ==> r.rows[a].nombre != "" && IsCollapsed(Py, r.rows[a].nombre)
    ensures r.Seeded? || r.NothingToCreate? ==> file.Some? && file.value.Some? && file.value.value.JArr?
    ensures r.Seeded? || r.NothingToCreate? ==>
      var items := file.value.value.items;
      forall i :: 0 <= i < |items| && SeedName(items[i]).Named? ==>
        (r.Seeded? && exists a :: 0 <= a < |r.rows| && Lower(r.rows[a].nombre) == Lower(SeedName(items[i]).name))
  {
    if !EnvBool(env, SEED_PROJECTS, false) {
      return SeedNotRequested;
    }
    var force := EnvBool(env, SEED_PROJECTS_FORCE, false);
    if existing > 0 && !force {
      return SkippedExisting;
    }
    if file.None? {
      return JsonNotFound;
    }
    var deleted := force && existing > 0;
    if file.value.None? {
      return SeedCrashed(deleted);
    }
    var raw := file.value.value;
    if !raw.JArr? || raw.items == [] {
      return EmptyOrInvalid(deleted);
    }
    var items := raw.items;
    var rows := CollectFirstWins(items, SeedName, BuildSeedRow);
    if rows.None? {
      return SeedCrashed(deleted);
    }
    KeptRows(items, SeedName, BuildSeedRow, (row: SeedRow) => row.nombre, rows.value);
    if rows.value == [] {
      return NothingToCreate(deleted);
    }
    r := Seeded(deleted, rows.value);
  }
}
