/**
 * The core error taxonomy: the `FrameworkErrorEnum` code table and the error each core error
 * class builds, as a value carrying its class, its code and its message.
 */
module CoreErrors {
  import opened Wrappers
  import opened Strings

  /** The keys of `FrameworkErrorEnum`. */
  datatype FrameworkErrorCode =
    | UNKNOWN | COMMON | MISSING_RESOLVER | INCONSISTENT_VERSION | MISSING_IMPORTS
    | DEFINITION_NOT_FOUND | SINGLETON_INJECT_REQUEST | DUPLICATE_CLASS_NAME | INVALID_CONFIG
    | USE_WRONG_METHOD

  /** The raw number of each key (before any decoration by the error base layer). */
  function CodeValue(c: FrameworkErrorCode): (n: int)
    ensures n == 99999 <==> c == UNKNOWN
    ensures n < 10000 <==> c == SINGLETON_INJECT_REQUEST
    ensures c != UNKNOWN ==> 1005 <= n <= 10008
  {
    match c
    case UNKNOWN => 99999
    case COMMON => 10000
    case MISSING_RESOLVER => 10001
    case INCONSISTENT_VERSION => 10002
    case MISSING_IMPORTS => 10003
    case DEFINITION_NOT_FOUND => 10004
    case SINGLETON_INJECT_REQUEST => 1005
    case DUPLICATE_CLASS_NAME => 10006
    case INVALID_CONFIG => 10007
    case USE_WRONG_METHOD => 10008
  }

  /**
   * The `FrameworkErrorEnum` table key by key; no two keys share a number, and only
   * SINGLETON_INJECT_REQUEST (1005) falls outside 10000..10008 besides UNKNOWN.
   */
  lemma CodesDistinct()
    ensures CodeValue(UNKNOWN) == 99999 && CodeValue(COMMON) == 10000 && CodeValue(MISSING_RESOLVER) == 10001
    ensures CodeValue(INCONSISTENT_VERSION) == 10002 && CodeValue(MISSING_IMPORTS) == 10003
    ensures CodeValue(DEFINITION_NOT_FOUND) == 10004 && CodeValue(SINGLETON_INJECT_REQUEST) == 1005
    ensures CodeValue(DUPLICATE_CLASS_NAME) == 10006 && CodeValue(INVALID_CONFIG) == 10007
    ensures CodeValue(USE_WRONG_METHOD) == 10008
    ensures forall a, b :: CodeValue(a) == CodeValue(b) ==> a == b
    ensures forall c :: c != UNKNOWN && c != SINGLETON_INJECT_REQUEST ==> 10000 <= CodeValue(c) <= 10008
    ensures CodeValue(SINGLETON_INJECT_REQUEST) < 10000 && CodeValue(UNKNOWN) == 99999
  {
  }

  /** The class an error was built by. */
  datatype ErrorClass =
    | InvalidConfig | UseWrongMethod | Common | ResolverMissing | MissingImportComponent
    | InconsistentVersion | DefinitionNotFound | DuplicateClassName | SingletonInjectRequest

  /**
   * A thrown core error. `notFoundTag` is the `Symbol.for("#NotFoundError")` property that only
   * the definition-not-found constructor sets on its instance.
   */
  datatype CoreError = CoreError(errorClass: ErrorClass, code: int, message: string, notFoundTag: bool)

  /** The tag is set exactly on errors of the definition-not-found class. */
  predicate Tagged(e: CoreError)
  {
    e.notFoundTag <==> e.errorClass == DefinitionNotFound
  }

  /** A truthy optional string: present and not empty. */
  predicate Truthy(s: Option<string>)
  {
    s.Some? && s.value != ""
  }

  const InvalidConfigHeader: string := "Invalid config file \n"

  /**
   * `new CoreInvalidConfigError(message)`. The constructor calls `message.toString()`, so an
   * absent message throws a TypeError instead of building an error: `None` here.
   */
  function InvalidConfigError(message: Option<string>): (r: Option<CoreError>)
    ensures r.Some? <==> message.Some?
    ensures r.Some? ==> r.value.errorClass == InvalidConfig && Tagged(r.value)
                        && r.value.code == CodeValue(INVALID_CONFIG)
                        && OccursAt(r.value.message, InvalidConfigHeader, 0)
                        && r.value.message[|InvalidConfigHeader|..] == message.value
  {
    match message
    case None => None
    case Some(m) =>
      ContainsJoin([], InvalidConfigHeader, m);
      assert [] + InvalidConfigHeader + m == InvalidConfigHeader + m;
      Some(CoreError(InvalidConfig, CodeValue(INVALID_CONFIG), InvalidConfigHeader + m, false))
  }

  /**
   * `new CoreUseWrongMethodError(wrongMethod, replacedMethod, describeKey)`: one of two
   * templates, chosen by whether `describeKey` is truthy; both name both methods.
   */
  function UseWrongMethodError(wrongMethod: string, replacedMethod: string, describeKey: Option<string>): (r: CoreError)
    ensures r.errorClass == UseWrongMethod && Tagged(r) && r.code == CodeValue(USE_WRONG_METHOD)
    ensures Truthy(describeKey) ==>
      r.message == Concat([describeKey.value, " not valid by ", wrongMethod, ", Use ", replacedMethod, " instead!"])
    ensures !Truthy(describeKey) ==>
      r.message == Concat(["You should not invoked by ", wrongMethod, ", Use ", replacedMethod, " instead!"])
    ensures Contains(r.message, wrongMethod) && Contains(r.message, replacedMethod)
    ensures Truthy(describeKey) ==> OccursAt(r.message, Concat([describeKey.value, " not valid by ", wrongMethod]), 0)
    ensures !Truthy(describeKey) ==> OccursAt(r.message, Concat(["You should not invoked by ", wrongMethod]), 0)
  {
    var lead := if Truthy(describeKey) then [describeKey.value, " not valid by "] else ["You should not invoked by "];
    var parts := lead + [wrongMethod, ", Use ", replacedMethod, " instead!"];
    var n := |lead|;
    ConcatContains(parts, n, n + 1);
    ConcatContains(parts, n + 2, n + 3);
    ConcatContains(parts, 0, n + 1);
    ConcatOne(wrongMethod);
    ConcatOne(replacedMethod);
    assert parts[n..n + 1] == [wrongMethod] && parts[n + 2..n + 3] == [replacedMethod];
    assert parts[..0] == [] && parts[0..n + 1] == lead + [wrongMethod];
    assert Truthy(describeKey) ==>
      parts == [describeKey.value, " not valid by ", wrongMethod, ", Use ", replacedMethod, " instead!"];
    assert !Truthy(describeKey) ==>
      parts == ["You should not invoked by ", wrongMethod, ", Use ", replacedMethod, " instead!"];
    assert Truthy(describeKey) ==> parts[0..n + 1] == [describeKey.value, " not valid by ", wrongMethod];
    assert !Truthy(describeKey) ==> parts[0..n + 1] == ["You should not invoked by ", wrongMethod];
    CoreError(UseWrongMethod, CodeValue(USE_WRONG_METHOD), Concat(parts), false)
  }

  /** `new CoreCommonError(message)`: the message as given. */
  function CommonError(message: string): (r: CoreError)
    ensures r.errorClass == Common && Tagged(r) && r.code == CodeValue(COMMON) && r.message == message
  {
    CoreError(Common, CodeValue(COMMON), message, false)
  }

  /** `new CoreResolverMissingError(type)`: the resolver type followed by a fixed sentence. */
  function ResolverMissingError(resolverType: string): (r: CoreError)
    ensures r.errorClass == ResolverMissing && Tagged(r) && r.code == CodeValue(MISSING_RESOLVER)
    ensures r.message == resolverType + " resolver is not exists!"
    ensures OccursAt(r.message, resolverType + " resolver is not exists!", 0)
  {
    var text := resolverType + " resolver is not exists!";
    ContainsJoin([], text, []);
    assert [] + text + [] == text;
    CoreError(ResolverMissing, CodeValue(MISSING_RESOLVER), text, false)
  }

  /** `new CoreMissingImportComponentError(originName)`: the quoted name, then the `imports` remedy. */
  function MissingImportComponentError(originName: string): (r: CoreError)
    ensures r.errorClass == MissingImportComponent && Tagged(r) && r.code == CodeValue(MISSING_IMPORTS)
    ensures r.message == "\"" + originName + "\"" + " can't inject and maybe forgot add \"{imports: [***]}\" in @Configuration."
    ensures OccursAt(r.message, "\"" + originName + "\"", 0)
  {
    var quoted := "\"" + originName + "\"";
    var rest := " can't inject and maybe forgot add \"{imports: [***]}\" in @Configuration.";
    ContainsJoin([], quoted, rest);
    assert [] + quoted + rest == quoted + rest;
    CoreError(MissingImportComponent, CodeValue(MISSING_IMPORTS), quoted + rest, false)
  }

  /** `new CoreInconsistentVersionError()`: a fixed message advising an upgrade of all dependencies. */
  function InconsistentVersionError(): (r: CoreError)
    ensures r.errorClass == InconsistentVersion && Tagged(r) && r.code == CodeValue(INCONSISTENT_VERSION)
    ensures r.message == Concat(["We find a latest dependency package installed, please remove the lock file and use ",
                                 "\"npm update\"", " to upgrade all dependencies first."])
    ensures Contains(r.message, "\"npm update\"")
  {
    var parts := ["We find a latest dependency package installed, please remove the lock file and use ",
                  "\"npm update\"", " to upgrade all dependencies first."];
    ConcatContains(parts, 1, 2);
    ConcatOne("\"npm update\"");
    assert parts[1..2] == ["\"npm update\""];
    CoreError(InconsistentVersion, CodeValue(INCONSISTENT_VERSION), Concat(parts), false)
  }

  /** The text after the identifier in a definition-not-found message. */
  const NotValidSuffix: string := " is not valid in current context"

  /** The text `updateErrorMsg` puts between the identifier and the class name. */
  const InClass: string := " in class "

  /**
   * `new CoreDefinitionNotFoundError(identifier)`: tagged, and its message gives the identifier
   * back through the `split` that `updateErrorMsg` performs, when the identifier does not itself
   * contain the suffix.
   */
  function DefinitionNotFoundError(identifier: string): (r: CoreError)
    ensures r.errorClass == DefinitionNotFound && Tagged(r) && r.notFoundTag
    ensures r.code == CodeValue(DEFINITION_NOT_FOUND)
    ensures r.message == identifier + NotValidSuffix
    ensures OccursAt(r.message, identifier, 0) && OccursAt(r.message, NotValidSuffix, |identifier|)
    ensures !Contains(identifier, NotValidSuffix) ==> SplitFirst(r.message, NotValidSuffix) == identifier
  {
    var text := identifier + NotValidSuffix;
    ContainsJoin([], identifier, NotValidSuffix);
    ContainsJoin(identifier, NotValidSuffix, []);
    assert [] + identifier + NotValidSuffix == text && identifier + NotValidSuffix + [] == text;
    assert !Contains(identifier, NotValidSuffix) ==> SplitFirst(text, NotValidSuffix) == identifier by {
      if !Contains(identifier, NotValidSuffix) {
        SplitAtSuffix(identifier);
      }
    }
    CoreError(DefinitionNotFound, CodeValue(DEFINITION_NOT_FOUND), text, true)
  }

  /** The facts about the suffix's characters that rule out an occurrence overlapping its own start. */
  lemma SuffixShape()
    ensures |NotValidSuffix| == 32
    ensures NotValidSuffix[0] == ' ' && NotValidSuffix[1] == 'i' && NotValidSuffix[2] == 's'
    ensures forall d :: 0 < d < 30 ==> !(NotValidSuffix[d] == ' ' && NotValidSuffix[d + 1] == 'i' && NotValidSuffix[d + 2] == 's')
    ensures NotValidSuffix[30] != ' ' && NotValidSuffix[31] != ' '
  {
  }

  /** An occurrence of a separator of this shape cannot straddle the end of `a` in `a + p`. */
  lemma NoStraddle(a: string, p: string, j: nat)
    requires |p| == 32 && p[0] == ' ' && p[1] == 'i' && p[2] == 's'
    requires forall d :: 0 < d < 30 ==> !(p[d] == ' ' && p[d + 1] == 'i' && p[d + 2] == 's')
    requires p[30] != ' ' && p[31] != ' '
    requires j < |a| < j + |p|
    ensures !OccursAt(a + p, p, j)
  {
    var s := a + p;
    var d := |a| - j;
    var w := s[j..j + |p|];
    assert w[d] == s[j + d] == p[0];
    if d < 30 {
      assert w[d + 1] == s[j + d + 1] == p[1] && w[d + 2] == s[j + d + 2] == p[2];
      var c0, c1, c2 := p[d], p[d + 1], p[d + 2];
      assert w == p ==> c0 == ' ' && c1 == 'i' && c2 == 's';
    } else {
      var c0 := p[d];
      assert w == p ==> c0 == ' ';
    }
  }

  /** A separator of this shape first occurs in `a + p` at `|a|` unless it occurs in `a`. */
  lemma FirstOccurrenceAfter(a: string, p: string)
    requires |p| == 32 && p[0] == ' ' && p[1] == 'i' && p[2] == 's'
    requires forall d :: 0 < d < 30 ==> !(p[d] == ' ' && p[d + 1] == 'i' && p[d + 2] == 's')
    requires p[30] != ' ' && p[31] != ' '
    requires !Contains(a, p)
    ensures IndexOf(a + p, p) == |a|
  {
    var s := a + p;
    ContainsJoin(a, p, "");
    assert a + p + "" == s;
    forall j | 0 <= j < |a| ensures !OccursAt(s, p, j) {
      if j + |p| <= |a| {
        assert s[j..j + |p|] == a[j..j + |p|];
        assert !OccursAt(a, p, j);
      } else {
        NoStraddle(a, p, j);
      }
    }
  }

  /** `(a + suffix).split(suffix)[0] == a` when `a` does not contain the suffix. */
  lemma SplitAtSuffix(a: string)
    requires !Contains(a, NotValidSuffix)
    ensures SplitFirst(a + NotValidSuffix, NotValidSuffix) == a
  {
    SuffixShape();
    FirstOccurrenceAfter(a, NotValidSuffix);
  }

  /** The message `updateErrorMsg(className)` writes: the old message's text before the suffix, then the class. */
  function UpdatedMessage(message: string, className: string): (m: string)
    ensures OccursAt(m, SplitFirst(message, NotValidSuffix), 0)
    ensures OccursAt(m, InClass + className, |SplitFirst(message, NotValidSuffix)|)
    ensures |m| == |SplitFirst(message, NotValidSuffix)| + |InClass| + |className| + |NotValidSuffix|
    ensures OccursAt(m, NotValidSuffix, |m| - |NotValidSuffix|)
    ensures !Contains(message, NotValidSuffix) ==> OccursAt(m, message, 0)
  {
    var head := SplitFirst(message, NotValidSuffix);
    JoinFour(head, InClass, className, NotValidSuffix);
    head + InClass + className + NotValidSuffix
  }

  /** On a freshly built error, `updateErrorMsg(c)` yields `id + " in class " + c + suffix`. */
  lemma UpdateFreshError(identifier: string, className: string)
    requires !Contains(identifier, NotValidSuffix)
    ensures UpdatedMessage(DefinitionNotFoundError(identifier).message, className)
            == identifier + " in class " + className + " is not valid in current context"
  {
  }

  /** `updateErrorMsg` is not idempotent: a second call nests another " in class " segment. */
  lemma UpdateTwiceNests(identifier: string, first: string, second: string)
    requires !Contains(identifier + InClass + first, NotValidSuffix)
    ensures var once := UpdatedMessage(DefinitionNotFoundError(identifier).message, first);
            UpdatedMessage(once, second) == identifier + InClass + first + InClass + second + NotValidSuffix
    ensures var once := UpdatedMessage(DefinitionNotFoundError(identifier).message, first);
            UpdatedMessage(once, first) != once
  {
    assert !Contains(identifier, NotValidSuffix) by {
      ContainsExtend(identifier, InClass + first, NotValidSuffix);
      assert identifier + (InClass + first) == identifier + InClass + first;
    }
    var once := UpdatedMessage(DefinitionNotFoundError(identifier).message, first);
    assert once == identifier + InClass + first + NotValidSuffix;
    SplitAtSuffix(identifier + InClass + first);
    assert |UpdatedMessage(once, first)| > |once|;
  }

  /** `new CoreDuplicateClassNameError(className, existPath, existPathOther)`: names the class and both paths, each quoted. */
  function DuplicateClassNameError(className: string, existPath: string, existPathOther: string): (r: CoreError)
    ensures r.errorClass == DuplicateClassName && Tagged(r) && r.code == CodeValue(DUPLICATE_CLASS_NAME)
    ensures r.message == Concat(["\"", className, "\"", " duplicated between ", "\"", existPath, "\"", " and ",
                                 "\"", existPathOther, "\""])
    ensures OccursAt(r.message, Concat(["\"", className, "\""]), 0)
    ensures Contains(r.message, Concat(["\"", existPath, "\""]))
    ensures Contains(r.message, Concat(["\"", existPathOther, "\""]))
  {
    var parts := ["\"", className, "\"", " duplicated between ", "\"", existPath, "\"", " and ",
                  "\"", existPathOther, "\""];
    ConcatContains(parts, 0, 3);
    ConcatContains(parts, 4, 7);
    ConcatContains(parts, 8, 11);
    assert parts[..0] == [] && parts[0..3] == ["\"", className, "\""];
    assert parts[4..7] == ["\"", existPath, "\""] && parts[8..11] == ["\"", existPathOther, "\""];
    CoreError(DuplicateClassName, CodeValue(DUPLICATE_CLASS_NAME), Concat(parts), false)
  }

  /**
   * `new CoreSingletonInjectRequestError(singletonScopeName, requestScopeName)`: names both
   * classes, and the request-scoped name appears in both remedies (`allowDowngrade` on it, or an
   * explicit `getAsync` of it).
   */
  function SingletonInjectRequestError(singletonScopeName: string, requestScopeName: string): (r: CoreError)
    ensures r.errorClass == SingletonInjectRequest && Tagged(r) && r.code == CodeValue(SINGLETON_INJECT_REQUEST)
    ensures r.message == Concat([singletonScopeName, " with singleton scope can't implicitly inject ",
                                 requestScopeName, " with request scope",
                                 " directly, please add \"@Scope(ScopeEnum.Request, ", "{ allowDowngrade: true })\" in ",
                                 requestScopeName, " or use", " \"ctx.requestContext.", "getAsync(",
                                 requestScopeName, ")", "\"."])
    ensures OccursAt(r.message, Concat([singletonScopeName, " with singleton scope can't implicitly inject "]), 0)
    ensures Contains(r.message, Concat([" with singleton scope can't implicitly inject ", requestScopeName, " with request scope"]))
    ensures Contains(r.message, Concat(["{ allowDowngrade: true })\" in ", requestScopeName, " or use"]))
    ensures Contains(r.message, Concat(["getAsync(", requestScopeName, ")"]))
  {
    var parts := [singletonScopeName, " with singleton scope can't implicitly inject ",
                  requestScopeName, " with request scope",
                  " directly, please add \"@Scope(ScopeEnum.Request, ", "{ allowDowngrade: true })\" in ",
                  requestScopeName, " or use", " \"ctx.requestContext.", "getAsync(",
                  requestScopeName, ")", "\"."];
    ConcatContains(parts, 0, 2);
    ConcatContains(parts, 1, 4);
    ConcatContains(parts, 5, 8);
    ConcatContains(parts, 9, 12);
    assert parts[..0] == [] && parts[0..2] == [singletonScopeName, " with singleton scope can't implicitly inject "];
    assert parts[1..4] == [" with singleton scope can't implicitly inject ", requestScopeName, " with request scope"];
    assert parts[5..8] == ["{ allowDowngrade: true })\" in ", requestScopeName, " or use"];
    assert parts[9..12] == ["getAsync(", requestScopeName, ")"];
    CoreError(SingletonInjectRequest, CodeValue(SINGLETON_INJECT_REQUEST), Concat(parts), false)
  }

  /** `CoreDefinitionNotFoundError.isClosePrototypeOf(ins)`: a present error carrying the tag. */
  function IsClosePrototypeOf(ins: Option<CoreError>): (b: bool)
    ensures b ==> ins.Some?
    ensures ins.Some? && Tagged(ins.value) ==> (b <==> ins.value.errorClass == DefinitionNotFound)
  {
    if ins.Some? then ins.value.notFoundTag else false
  }

  /**
   * The tag test recognises definition-not-found errors, also after `updateErrorMsg`, and no
   * error of another core class, nor `null`/`undefined`.
   */
  lemma IsClosePrototypeOfClassifies(e: CoreError, identifier: string, className: string)
    requires Tagged(e)
    ensures IsClosePrototypeOf(Some(e)) <==> e.errorClass == DefinitionNotFound
    ensures IsClosePrototypeOf(Some(DefinitionNotFoundError(identifier)))
    ensures IsClosePrototypeOf(Some(DefinitionNotFoundError(identifier).(message := UpdatedMessage(DefinitionNotFoundError(identifier).message, className))))
    ensures !IsClosePrototypeOf(None)
  {
  }

  /** An instance of `CoreDefinitionNotFoundError`, whose `message` field `updateErrorMsg` overwrites. */
  class CoreDefinitionNotFoundError {
    var message: string
    const code: int

    /** The thrown value this object currently stands for. */
    function Value(): (e: CoreError)
      reads this
    {
      CoreError(DefinitionNotFound, code, message, true)
    }

    constructor (identifier: string)
      ensures Value() == DefinitionNotFoundError(identifier)
    {
      message := identifier + NotValidSuffix;
      code := CodeValue(DEFINITION_NOT_FOUND);
    }

    /** `updateErrorMsg(className)`: keep the text before the suffix and insert the requesting class. */
    method UpdateErrorMsg(className: string)
      modifies this
      ensures message == UpdatedMessage(old(message), className)
      ensures Value() == old(Value()).(message := UpdatedMessage(old(message), className))
    {
      var identifier := SplitFirst(message, NotValidSuffix);
      message := identifier + InClass + className + NotValidSuffix;
    }
  }
}
