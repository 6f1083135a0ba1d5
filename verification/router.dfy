/**
  The request router (`Req`, `PathDefinition` and the rule list built in `NewDBExplorer`): an
  ordered list of (pattern, method, handler) rules of which the first whose pattern matches the
  path and whose method equals the request method wins.

  The regular-expression engine is a parameter: compiling a pattern gives a matcher or fails.
  The six patterns the engine installs are also written out below as character predicates.
 */
module Router {
  import opened Wrappers
  import opened GoStrings

  /** One element of the `reqs` slice. */
  datatype Rule<H> = Rule(pattern: string, verb: string, handler: H)

  /** regexp.Compile followed by MatchString: None when the pattern does not compile. */
  type Compiler = string -> Option<string -> bool>

  /** The rule's pattern compiles and matches the path, and the methods are equal. */
  predicate Qualifies<H>(rule: Rule<H>, path: string, verb: string, compile: Compiler) {
    compile(rule.pattern).Some? && compile(rule.pattern).value(path) && rule.verb == verb
  }

  /** Rule `i` is reached by the loop (every earlier pattern compiled and failed to qualify) and qualifies. */
  ghost predicate Selected<H>(rules: seq<Rule<H>>, path: string, verb: string, compile: Compiler, i: int) {
    && 0 <= i < |rules|
    && Qualifies(rules[i], path, verb, compile)
    && forall j :: 0 <= j < i ==> compile(rules[j].pattern).Some? && !Qualifies(rules[j], path, verb, compile)
  }

  /**
    PathDefinition: the handler of the first qualifying rule in list order; none when no rule
    qualifies, or when a pattern met before any qualifying rule does not compile.
   */
  function PathDefinition<H>(path: string, verb: string, rules: seq<Rule<H>>, compile: Compiler): (r: Option<H>)
    ensures r.Some? <==> exists i :: Selected(rules, path, verb, compile, i)
    ensures forall i :: Selected(rules, path, verb, compile, i) ==> r == Some(rules[i].handler)
    ensures forall i | 0 <= i < |rules| && compile(rules[i].pattern).None? &&
                       (forall j :: 0 <= j < i ==> !Qualifies(rules[j], path, verb, compile)) :: r.None?
    decreases |rules|
  {
    if |rules| == 0 then None
    else
      assert forall i :: 1 <= i < |rules| ==> rules[1..][i - 1] == rules[i];
      match compile(rules[0].pattern)
      case None => None
      case Some(matches) =>
        if matches(path) && rules[0].verb == verb then
          assert Selected(rules, path, verb, compile, 0);
          Some(rules[0].handler)
        else
          var r := PathDefinition(path, verb, rules[1..], compile);
          assert forall i :: Selected(rules[1..], path, verb, compile, i) ==> Selected(rules, path, verb, compile, i + 1);
          assert forall i :: Selected(rules, path, verb, compile, i) ==> i > 0 && Selected(rules[1..], path, verb, compile, i - 1);
          r
  }

  // ---------------------------------------------------------------------------------------
  // The route table of NewDBExplorer
  // ---------------------------------------------------------------------------------------

  /** The six handlers the engine binds. */
  datatype Endpoint = ListTables | ListRows | GetRow | InsertRow | UpdateRow | DeleteRow

  const RootPattern: string := @"^/{1}$"
  const RowsPattern: string := @"^\/[^\/?]+(:?(limit=\d+(&offset=\d+)?|offset=d+(&limit=\d+)?)?)?$"
  const GetRowPattern: string := @"^/[a-zA-Z][a-zA-Z0-9]*/\d+$"
  const InsertPattern: string := @"^/[a-zA-Z][a-zA-Z/0-9]*/$"
  const RecordPattern: string := @"^/[a-zA-Z][a-zA-Z/0-9]*/\d+$"

  /** The rule list, in the order it is searched. */
  const Routes: seq<Rule<Endpoint>> := [
    Rule(RootPattern, "GET", ListTables),
    Rule(RowsPattern, "GET", ListRows),
    Rule(GetRowPattern, "GET", GetRow),
    Rule(InsertPattern, "PUT", InsertRow),
    Rule(RecordPattern, "POST", UpdateRow),
    Rule(RecordPattern, "DELETE", DeleteRow)
  ]

  predicate IsLetter(c: char) {
    'a' <= c <= 'z' || 'A' <= c <= 'Z'
  }

  /** `[a-zA-Z0-9]`, or `[a-zA-Z/0-9]` when slashes are allowed. */
  predicate TableChar(c: char, slashes: bool) {
    IsLetter(c) || IsDigit(c) || (slashes && c == '/')
  }

  /** `^/{1}$`: the root path alone. */
  predicate RootPath(path: string) {
    path == "/"
  }

  /**
    `^\/[^\/?]+(:?(...)?)?$`. Every character the optional tail can match is already allowed by
    `[^\/?]+`, so the pattern matches exactly a slash followed by one or more characters that are
    neither '/' nor '?'.
   */
  predicate RowsPath(path: string) {
    |path| >= 2 && path[0] == '/' && forall i :: 1 <= i < |path| ==> path[i] != '/' && path[i] != '?'
  }

  // The table part `^/[a-zA-Z][a-zA-Z0-9]*` (or with '/' allowed) up to position k, where a '/' stands.
  predicate TablePrefix(path: string, k: int, slashes: bool)
    requires 2 <= k < |path|
  {
    && path[0] == '/'
    && IsLetter(path[1])
    && (forall i :: 2 <= i < k ==> TableChar(path[i], slashes))
    && path[k] == '/'
  }

  // `^/[a-zA-Z][a-zA-Z0-9]*/\d+$`, or `^/[a-zA-Z][a-zA-Z/0-9]*/\d+$` when slashes are allowed.
  predicate TableIdPath(path: string, slashes: bool) {
    exists k | 2 <= k < |path| :: TablePrefix(path, k, slashes) && IsDigitString(path[k + 1..])
  }

  // `^/[a-zA-Z][a-zA-Z/0-9]*/$`
  predicate InsertPath(path: string) {
    |path| >= 3 && TablePrefix(path, |path| - 1, true)
  }

  /** The language of each installed pattern, as read from its text. */
  function Language(pattern: string, path: string): bool {
    if pattern == RootPattern then RootPath(path)
    else if pattern == RowsPattern then RowsPath(path)
    else if pattern == GetRowPattern then TableIdPath(path, false)
    else if pattern == InsertPattern then InsertPath(path)
    else TableIdPath(path, true)
  }

  /** The regular-expression engine compiles each installed pattern to the matcher of its language. */
  ghost predicate CompilesRoutes(compile: Compiler) {
    forall i | 0 <= i < |Routes| ::
      && compile(Routes[i].pattern).Some?
      && forall path :: compile(Routes[i].pattern).value(path) == Language(Routes[i].pattern, path)
  }

  /** The endpoint a request reaches, read off the route table rule by rule. */
  function Expected(path: string, verb: string): Option<Endpoint> {
    if verb == "GET" && RootPath(path) then Some(ListTables)
    else if verb == "GET" && RowsPath(path) then Some(ListRows)
    else if verb == "GET" && TableIdPath(path, false) then Some(GetRow)
    else if verb == "PUT" && InsertPath(path) then Some(InsertRow)
    else if verb == "POST" && TableIdPath(path, true) then Some(UpdateRow)
    else if verb == "DELETE" && TableIdPath(path, true) then Some(DeleteRow)
    else None
  }

  /** The five pattern texts differ (their lengths already do). */
  lemma PatternsDistinct()
    ensures |RootPattern| == 6 && |RowsPattern| == 65 && |GetRowPattern| == 27
    ensures |InsertPattern| == 25 && |RecordPattern| == 28
  {
  }

  /** Each installed rule's pattern stands for the language written out for it. */
  lemma RouteLanguages(path: string)
    ensures Language(Routes[0].pattern, path) == RootPath(path)
    ensures Language(Routes[1].pattern, path) == RowsPath(path)
    ensures Language(Routes[2].pattern, path) == TableIdPath(path, false)
    ensures Language(Routes[3].pattern, path) == InsertPath(path)
    ensures Language(Routes[4].pattern, path) == TableIdPath(path, true)
    ensures Language(Routes[5].pattern, path) == TableIdPath(path, true)
  {
    PatternsDistinct();
  }

  /** Under an engine that compiles the installed patterns to their languages, when each rule qualifies. */
  lemma RouteQualifies(path: string, verb: string, compile: Compiler)
    requires CompilesRoutes(compile)
    ensures forall i | 0 <= i < |Routes| :: compile(Routes[i].pattern).Some?
    ensures Qualifies(Routes[0], path, verb, compile) <==> verb == "GET" && RootPath(path)
    ensures Qualifies(Routes[1], path, verb, compile) <==> verb == "GET" && RowsPath(path)
    ensures Qualifies(Routes[2], path, verb, compile) <==> verb == "GET" && TableIdPath(path, false)
    ensures Qualifies(Routes[3], path, verb, compile) <==> verb == "PUT" && InsertPath(path)
    ensures Qualifies(Routes[4], path, verb, compile) <==> verb == "POST" && TableIdPath(path, true)
    ensures Qualifies(Routes[5], path, verb, compile) <==> verb == "DELETE" && TableIdPath(path, true)
  {
    RouteLanguages(path);
    forall i | 0 <= i < |Routes|
      ensures compile(Routes[i].pattern).Some?
      ensures compile(Routes[i].pattern).value(path) == Language(Routes[i].pattern, path)
    {
    }
  }

  /**
    With an engine that compiles the installed patterns to their languages, routing a request
    through the rule list reaches exactly the endpoint read off the table.
   */
  lemma RouteTableDispatch(path: string, verb: string, compile: Compiler)
    requires CompilesRoutes(compile)
    ensures PathDefinition(path, verb, Routes, compile) == Expected(path, verb)
  {
    RouteQualifies(path, verb, compile);
    var e := Expected(path, verb);
    if e == Some(ListTables) {
      assert Selected(Routes, path, verb, compile, 0);
    } else if e == Some(ListRows) {
      assert Selected(Routes, path, verb, compile, 1);
    } else if e == Some(GetRow) {
      assert Selected(Routes, path, verb, compile, 2);
    } else if e == Some(InsertRow) {
      assert Selected(Routes, path, verb, compile, 3);
    } else if e == Some(UpdateRow) {
      assert Selected(Routes, path, verb, compile, 4);
    } else if e == Some(DeleteRow) {
      assert Selected(Routes, path, verb, compile, 5);
    } else {
      assert forall i :: 0 <= i < |Routes| ==> !Qualifies(Routes[i], path, verb, compile);
    }
  }

  /** A list-rows path has a single segment, so it never reaches the get-row rule. */
  lemma RowsAndRecordPathsDisjoint(path: string)
    ensures RowsPath(path) ==> !TableIdPath(path, true) && !TableIdPath(path, false) && !InsertPath(path)
  {
  }

  /** The update and delete rules admit a table part with slashes, e.g. /a/b/5 where the get-row rule does not. */
  lemma RecordPatternAdmitsNestedPath()
    ensures TableIdPath("/a/b/5", true)
    ensures !TableIdPath("/a/b/5", false)
  {
    var p := "/a/b/5";
    assert TablePrefix(p, 4, true) && IsDigitString(p[5..]);
    forall k | 2 <= k < |p|
      ensures !(TablePrefix(p, k, false) && IsDigitString(p[k + 1..]))
    {
      if k == 2 {
        assert p[3..][0] == 'b';
      } else if k == 4 {
        assert !TableChar(p[2], false);
      } else {
        assert p[k] != '/';
      }
    }
  }
}
