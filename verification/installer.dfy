/**
 * The check the project template runs before generating anything: the
 * installer name the user typed must match `^[-_.=+@,%^0-9a-zA-Z]+$` as
 * Python's `re.match` reads it, or generation stops with status 1. The
 * name reaches the hook substituted into a string literal; the model takes
 * the value of that literal.
 */
module InstallerName {

  /** The characters the pattern's class admits. */
  predicate InClass(c: char) {
    || c == '-' || c == '_' || c == '.' || c == '=' || c == '+'
    || c == '@' || c == ',' || c == '%' || c == '^'
    || ('0' <= c <= '9') || ('a' <= c <= 'z') || ('A' <= c <= 'Z')
  }

  /**
   * The pattern read as Python reads it: one or more class characters from
   * the start, then `$`, which matches at the very end or just before a
   * newline that ends the string.
   */
  predicate PatternMatches(name: string) {
    exists k :: 1 <= k <= |name| && MatchEnd(name, k)
  }

  /** The class run covers `name[..k]`, and `$` matches at position `k`. */
  predicate MatchEnd(name: string, k: int) {
    1 <= k <= |name| && (forall i :: 0 <= i < k ==> InClass(name[i])) &&
      (k == |name| || (k == |name| - 1 && name[k] == '\n'))
  }

  /** The newline `$` lets through, if the name ends in one. */
  function Body(name: string): (b: string)
    ensures |b| <= |name| && name[..|b|] == b
    ensures |b| == |name| || (|b| == |name| - 1 && name[|b|] == '\n')
  {
    if |name| > 0 && name[|name| - 1] == '\n' then name[..|name| - 1] else name
  }

  /**
   * The hook's test, character by character: the name without its final
   * newline, if any, is non-empty and made of class characters only.
   */
  function Valid(name: string): (ok: bool)
    ensures ok <==> PatternMatches(name)
  {
    var b := Body(name);
    var ok := b != [] && forall i :: 0 <= i < |b| ==> InClass(b[i]);
    ValidMatches(name, ok);
    ok
  }

  lemma ValidMatches(name: string, ok: bool)
    requires var b := Body(name); ok == (b != [] && forall i :: 0 <= i < |b| ==> InClass(b[i]))
    ensures ok <==> PatternMatches(name)
  {
    if ok {
      BodyMatches(name);
    }
    if PatternMatches(name) {
      MatchesBody(name);
    }
  }

  /** A non-empty body of class characters is a match, ending where the body ends. */
  lemma BodyMatches(name: string)
    requires var b := Body(name); b != [] && forall i :: 0 <= i < |b| ==> InClass(b[i])
    ensures PatternMatches(name)
  {
    var b := Body(name);
    var k := |b|;
    assert forall i :: 0 <= i < k ==> name[i] == b[i];
    assert MatchEnd(name, k);
  }

  /** A match covers exactly the body, which is then non-empty and of class characters only. */
  lemma MatchesBody(name: string)
    requires PatternMatches(name)
    ensures var b := Body(name); b != [] && forall i :: 0 <= i < |b| ==> InClass(b[i])
  {
    var b := Body(name);
    var k :| 1 <= k <= |name| && MatchEnd(name, k);
    assert InClass(name[k - 1]) && !InClass('\n');
    if k == |name| {
      assert name[|name| - 1] != '\n';
      assert b == name;
    } else {
      assert b == name[..k];
    }
    assert |b| == k;
    forall i | 0 <= i < |b|
      ensures InClass(b[i])
    {
      assert b[i] == name[i];
    }
  }

  /** What the hook does with the name. */
  datatype HookResult = Generate | Exit(code: int)

  /**
   * The pre-generation hook: an accepted name lets generation go on without
   * output, anything else stops it with status 1.
   */
  function PreGenHook(name: string): (r: HookResult)
    ensures r == Generate <==> PatternMatches(name)
    ensures r != Generate ==> r == Exit(1)
  {
    if Valid(name) then Generate else Exit(1)
  }

  /** A name of class characters only is accepted exactly when it is non-empty. */
  lemma AcceptsClassNames(name: string)
    requires forall i :: 0 <= i < |name| ==> InClass(name[i])
    ensures PreGenHook(name) == Generate <==> name != []
  {
    assert !InClass('\n');
    if name != [] {
      assert name[|name| - 1] != '\n';
    }
  }

  /** The empty name is refused: the class has to match at least once. */
  lemma RejectsEmpty()
    ensures PreGenHook("") == Exit(1)
  {
  }

  /** A character outside the class anywhere but as the final newline gets the name refused. */
  lemma RejectsOutsideClass(name: string, i: nat)
    requires i < |name| && !InClass(name[i])
    requires !(i == |name| - 1 && name[i] == '\n')
    ensures PreGenHook(name) == Exit(1)
  {
    assert Body(name)[i] == name[i];
  }

  /** Blanks are refused: a space or tab anywhere in the name stops generation. */
  lemma RejectsBlanks(name: string, i: nat)
    requires i < |name| && (name[i] == ' ' || name[i] == '\t')
    ensures PreGenHook(name) == Exit(1)
  {
    RejectsOutsideClass(name, i);
  }

  /** A valid name followed by one newline is accepted, since `$` matches before it. */
  lemma AcceptsTrailingNewline(name: string)
    requires PreGenHook(name) == Generate && (name == [] || name[|name| - 1] != '\n')
    ensures PreGenHook(name + "\n") == Generate
  {
    assert Body(name + "\n") == name;
  }

  /** Two newlines are too many: only one final newline is let through. */
  lemma RejectsTwoNewlines(name: string)
    ensures PreGenHook(name + "\n\n") == Exit(1)
  {
    RejectsOutsideClass(name + "\n\n", |name|);
  }
}
