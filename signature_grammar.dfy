/**
  The signature format that `parseFunction` reads, as its documentation describes
  it: an optional access modifier followed by a space, the return type followed by
  a space, the method name, and the arguments between parentheses, separated by
  `", "`, each a type and a name separated by a space. `Render` writes a signature
  in that format; parsing what it writes gives the signature back.
*/
module SignatureGrammar {
  import opened Wrappers
  import StringSplitter
  import opened MethodParser

  /** A word the tokenizer keeps whole: non-empty and free of separators. */
  ghost predicate Identifier(t: string) {
    t != [] && StringSplitter.SeparatorFree(t, SignatureSeparators)
  }

  /** A signature the parser can tell apart. Every word is non-empty and free of
      the separators, among them the joining `'|'`, which the documented format
      does not forbid in a word but the tokenizer cuts at; the modifier, when
      present, is a modifier keyword; and without one the return type is not a
      modifier keyword. */
  ghost predicate WellFormed(sig: Signature) {
    && (sig.accessModifier.Some? ==> sig.accessModifier.value in AccessModifiers)
    && (sig.accessModifier.None? ==> sig.returnType !in AccessModifiers)
    && Identifier(sig.returnType)
    && Identifier(sig.methodName)
    && forall a | a in sig.arguments :: Identifier(a.argType) && Identifier(a.argName)
  }

  /** `type1 name1, type2 name2, ...`. */
  function RenderArguments(args: seq<Argument>): (text: string)
  {
    if args == [] then []
    else
      args[0].argType + " " + args[0].argName
      + (if |args| == 1 then [] else ", " + RenderArguments(args[1..]))
  }

  /** `accessModifier returnType methodName(argumentType1 argumentName1, ...)`. */
  function Render(sig: Signature): (text: string)
  {
    (if sig.accessModifier.Some? then sig.accessModifier.value + " " else [])
      + sig.returnType + " " + sig.methodName + "(" + RenderArguments(sig.arguments) + ")"
  }

  /** The argument list as the flat token list `type1, name1, type2, name2, ...`. */
  function Flatten(args: seq<Argument>): (tokens: seq<string>)
  {
    if args == [] then [] else [args[0].argType, args[0].argName] + Flatten(args[1..])
  }

  /** The argument list and its closing parenthesis split into the flat pairs. */
  lemma {:induction false} SplitRenderArguments(args: seq<Argument>)
    requires forall a | a in args :: Identifier(a.argType) && Identifier(a.argName)
    ensures StringSplitter.Split(RenderArguments(args) + ")", SignatureSeparators) == Flatten(args)
    decreases |args|
  {
    var seps := SignatureSeparators;
    if args == [] {
      StringSplitter.SplitEmpty(")", seps);
    } else {
      var a := args[0];
      var rest := (if |args| == 1 then [] else ", " + RenderArguments(args[1..])) + ")";
      assert RenderArguments(args) + ")" == a.argType + (" " + (a.argName + rest));
      assert StringSplitter.Split(rest, seps) == Flatten(args[1..]) by {
        if |args| == 1 {
          StringSplitter.SplitEmpty(")", seps);
        } else {
          var more := RenderArguments(args[1..]) + ")";
          assert rest == ", " + more;
          assert forall b | b in args[1..] :: b in args;
          SplitRenderArguments(args[1..]);
          StringSplitter.SplitSkip(", ", more, seps);
        }
      }
      assert a in args;
      ArgumentSplit(a, rest);
    }
  }

  /** A word followed by a run of separators is one token. */
  lemma WordSplit(w: string, g: string, rest: string)
    requires Identifier(w) && g != [] && StringSplitter.AllSeparators(g, SignatureSeparators)
    ensures StringSplitter.Split(w + (g + rest), SignatureSeparators)
      == [w] + StringSplitter.Split(rest, SignatureSeparators)
  {
    assert g[0] in g;
    StringSplitter.SplitSkip(g, rest, SignatureSeparators);
    StringSplitter.SplitRun(w, g + rest, SignatureSeparators);
  }

  /** One argument followed by what comes after it in the list. */
  lemma ArgumentSplit(a: Argument, rest: string)
    requires Identifier(a.argType) && Identifier(a.argName)
    requires rest != [] && rest[0] in SignatureSeparators
    ensures StringSplitter.Split(a.argType + (" " + (a.argName + rest)), SignatureSeparators)
      == [a.argType, a.argName] + StringSplitter.Split(rest, SignatureSeparators)
  {
    assert rest == [rest[0]] + rest[1..];
    WordSplit(a.argName, [rest[0]], rest[1..]);
    WordSplit(a.argType, " ", a.argName + rest);
  }

  /** The modifier keywords hold no separator. */
  lemma ModifiersAreIdentifiers(m: string)
    requires m in AccessModifiers
    ensures Identifier(m)
  {
    assert m == "public" || m == "protected" || m == "private";
  }

  /** Everything after the modifier splits into the return type, the method name
      and the flat argument pairs. */
  lemma BodyTokens(sig: Signature)
    requires Identifier(sig.returnType) && Identifier(sig.methodName)
    requires forall a | a in sig.arguments :: Identifier(a.argType) && Identifier(a.argName)
    ensures StringSplitter.Split(
        sig.returnType + (" " + (sig.methodName + ("(" + (RenderArguments(sig.arguments) + ")")))),
        SignatureSeparators)
      == [sig.returnType, sig.methodName] + Flatten(sig.arguments)
  {
    var args := RenderArguments(sig.arguments) + ")";
    SplitRenderArguments(sig.arguments);
    WordSplit(sig.methodName, "(", args);
    WordSplit(sig.returnType, " ", sig.methodName + ("(" + args));
  }

  /** A rendered signature splits into the modifier (if any), the return type,
      the method name and the flat argument pairs. */
  lemma TokensRender(sig: Signature)
    requires WellFormed(sig)
    ensures Tokens(Render(sig)) ==
      (if sig.accessModifier.Some? then [sig.accessModifier.value] else [])
        + [sig.returnType, sig.methodName] + Flatten(sig.arguments)
  {
    var body := sig.returnType + (" " + (sig.methodName + ("(" + (RenderArguments(sig.arguments) + ")"))));
    BodyTokens(sig);
    if sig.accessModifier.Some? {
      var m := sig.accessModifier.value;
      assert Render(sig) == m + (" " + body);
      ModifiersAreIdentifiers(m);
      WordSplit(m, " ", body);
    } else {
      assert Render(sig) == body;
    }
  }

  /** Reading pairs from just after a prefix of the flat argument list gives the
      arguments back in order. */
  lemma {:induction false} PairsFlatten(prefix: seq<string>, args: seq<Argument>)
    ensures Pairs(prefix + Flatten(args), |prefix|) == args
    decreases |args|
  {
    if args == [] {
      assert prefix + Flatten(args) == prefix;
    } else {
      var next := prefix + [args[0].argType, args[0].argName];
      assert prefix + Flatten(args) == next + Flatten(args[1..]);
      PairsFlatten(next, args[1..]);
    }
  }

  /** Round trip: parsing a rendered well-formed signature gives it back. */
  lemma ParseRender(sig: Signature)
    requires WellFormed(sig)
    ensures Parse(Render(sig)) == Success(sig)
  {
    TokensRender(sig);
    var prefix := (if sig.accessModifier.Some? then [sig.accessModifier.value] else [])
      + [sig.returnType, sig.methodName];
    assert Tokens(Render(sig)) == prefix + Flatten(sig.arguments);
    PairsFlatten(prefix, sig.arguments);
  }

  /** Why `WellFormed` excludes a return type that is a modifier keyword when
      there is no modifier: the format writes such a signature, but the parser
      takes its return type for the modifier and never gives it back. */
  lemma RenderModifierReturnType(sig: Signature)
    requires sig.accessModifier.None? && sig.returnType in AccessModifiers
    requires Identifier(sig.methodName)
    requires forall a | a in sig.arguments :: Identifier(a.argType) && Identifier(a.argName)
    ensures Parse(Render(sig)) != Success(sig)
    ensures sig.arguments == [] ==> Parse(Render(sig)) == Failure(IndexOutOfBounds(2, 2))
  {
    ModifiersAreIdentifiers(sig.returnType);
    BodyTokens(sig);
    assert Render(sig) == sig.returnType + (" " + (sig.methodName + ("(" + (RenderArguments(sig.arguments) + ")"))));
  }

  // The steps of `PipeInNameExample`, one literal fact per lemma; the text is
  // tokenized as a parameter `s` so that no proof unrolls the literal itself.

  lemma PipeText()
    ensures "void a|b()" == "void" + (" " + ("a" + ("|" + ("b" + ("(" + ")")))))
  {
  }

  lemma PipeWords()
    ensures Identifier("void") && Identifier("a") && Identifier("b")
  {
  }

  lemma PipeTokens(s: string)
    requires s == "void" + (" " + ("a" + ("|" + ("b" + ("(" + ")")))))
    ensures Tokens(s) == ["void", "a", "b"]
  {
    PipeWords();
    StringSplitter.SplitEmpty(")", SignatureSeparators);
    WordSplit("b", "(", ")");
    WordSplit("a", "|", "b" + ("(" + ")"));
    WordSplit("void", " ", "a" + ("|" + ("b" + ("(" + ")"))));
  }

  lemma PipeParse(s: string)
    requires s == "void" + (" " + ("a" + ("|" + ("b" + ("(" + ")")))))
    ensures Parse(s) == Success(Signature(None, "void", "a", []))
  {
    PipeTokens(s);
    assert Pairs(["void", "a", "b"], 2) == [];
  }

  lemma PipeRendered()
    ensures Render(Signature(None, "void", "a|b", [])) == "void a|b()"
  {
  }

  /** A word holding the joining `'|'` is cut in two by the tokenizer: the
      rendered `void a|b()` is read with method name `a`, and `b` becomes an
      unpaired token that is dropped. */
  lemma PipeInNameExample()
    ensures Render(Signature(None, "void", "a|b", [])) == "void a|b()"
    ensures Parse("void a|b()") == Success(Signature(None, "void", "a", []))
  {
    PipeRendered();
    PipeText();
    PipeParse("void a|b()");
  }

  // The examples of the documentation of `parseFunction`. Each one is proved by
  // `ParseRender` once the documented text is shown to be the rendered text and
  // the signature to be well-formed. The lemmas named `...Words`, `...Text...`
  // and `...Rendered...` below are only the steps of those two facts: each
  // compares string literals or checks a few words, one small fact per lemma,
  // so that no single proof has to compare a long literal all at once. They
  // state nothing about the parser; the `...Example` lemmas do.

  /** The rendered text: what comes before the arguments, then the arguments
      and the closing parenthesis. */
  lemma RenderParts(sig: Signature, prefix: string, arguments: string)
    requires prefix ==
      (if sig.accessModifier.Some? then sig.accessModifier.value + " " else [])
        + sig.returnType + " " + sig.methodName + "("
    requires arguments == RenderArguments(sig.arguments)
    ensures Render(sig) == prefix + (arguments + ")")
  {
  }

  /** The rendered argument list of two or more arguments: the first one, a
      comma and a space, and the rest. */
  lemma RenderArgumentsCons(args: seq<Argument>, first: string, rest: string)
    requires |args| >= 2
    requires first == args[0].argType + " " + args[0].argName
    requires rest == RenderArguments(args[1..])
    ensures RenderArguments(args) == first + (", " + rest)
  {
  }

  lemma LogWords()
    ensures "private" in AccessModifiers
    ensures Identifier("void") && Identifier("log")
  {
  }

  lemma LogArgumentWords()
    ensures Identifier("String") && Identifier("value")
  {
  }

  lemma LogText()
    ensures "private void log(String value)" == "private void log(" + "String value)"
  {
  }

  lemma LogTextTail()
    ensures "String value)" == "String value" + ")"
  {
  }

  lemma LogTextPrefix()
    ensures "private void log(" == "private" + " " + "void" + " " + "log" + "("
  {
  }

  lemma LogArgumentsRendered()
    ensures RenderArguments([Argument("String", "value")]) == "String value"
  {
  }

  lemma LogRendered()
    ensures Render(Signature(Some("private"), "void", "log", [Argument("String", "value")]))
      == "private void log(String value)"
  {
    LogText();
    LogTextTail();
    LogTextPrefix();
    LogArgumentsRendered();
    RenderParts(Signature(Some("private"), "void", "log", [Argument("String", "value")]),
      "private void log(", "String value");
  }

  lemma LogWellFormed()
    ensures WellFormed(Signature(Some("private"), "void", "log", [Argument("String", "value")]))
  {
    LogWords();
    LogArgumentWords();
    var args := [Argument("String", "value")];
    assert forall a | a in args :: a == Argument("String", "value");
  }

  /** `private void log(String value)`. */
  lemma LogExample()
    ensures Parse("private void log(String value)") ==
      Success(Signature(Some("private"), "void", "log", [Argument("String", "value")]))
  {
    LogRendered();
    LogWellFormed();
    ParseRender(Signature(Some("private"), "void", "log", [Argument("String", "value")]));
  }

  lemma CurrentDateTimeWords()
    ensures "public" in AccessModifiers && Identifier("DateTime")
  {
  }

  lemma CurrentDateTimeName()
    ensures Identifier("getCurrentDateTime")
  {
  }

  lemma CurrentDateTimeText()
    ensures "public DateTime getCurrentDateTime()" == "public DateTime " + "getCurrentDateTime()"
  {
  }

  lemma CurrentDateTimeTextTail()
    ensures "getCurrentDateTime()" == "getCurrentDateTime" + "(" + ")"
  {
  }

  lemma CurrentDateTimeTextPrefix()
    ensures "public DateTime " == "public" + " " + "DateTime" + " "
  {
  }

  lemma CurrentDateTimeRendered()
    ensures Render(Signature(Some("public"), "DateTime", "getCurrentDateTime", []))
      == "public DateTime getCurrentDateTime()"
  {
    CurrentDateTimeText();
    CurrentDateTimeTextTail();
    CurrentDateTimeTextPrefix();
    RenderParts(Signature(Some("public"), "DateTime", "getCurrentDateTime", []),
      "public DateTime " + ("getCurrentDateTime" + "("), []);
  }

  lemma CurrentDateTimeWellFormed()
    ensures WellFormed(Signature(Some("public"), "DateTime", "getCurrentDateTime", []))
  {
    CurrentDateTimeWords();
    CurrentDateTimeName();
  }

  /** `public DateTime getCurrentDateTime()`: the argument list is empty. */
  lemma CurrentDateTimeExample()
    ensures Parse("public DateTime getCurrentDateTime()") ==
      Success(Signature(Some("public"), "DateTime", "getCurrentDateTime", []))
  {
    CurrentDateTimeRendered();
    CurrentDateTimeWellFormed();
    ParseRender(Signature(Some("public"), "DateTime", "getCurrentDateTime", []));
  }

  /** The four arguments of `Vector3 distort(...)`. */
  function DistortArguments(): (args: seq<Argument>)
  {
    [Argument("int", "x"), Argument("int", "y"), Argument("int", "z"), Argument("float", "magnitude")]
  }

  lemma DistortWords()
    ensures "Vector3" !in AccessModifiers
    ensures Identifier("Vector3") && Identifier("distort")
  {
  }

  lemma DistortArgumentWords()
    ensures Identifier("int") && Identifier("float")
    ensures Identifier("x") && Identifier("y") && Identifier("z")
  {
  }

  lemma DistortMagnitudeWord()
    ensures Identifier("magnitude")
  {
  }

  lemma DistortText()
    ensures "Vector3 distort(int x, int y, int z, float magnitude)"
      == "Vector3 distort(" + "int x, int y, int z, float magnitude)"
  {
  }

  lemma DistortTextTail()
    ensures "int x, int y, int z, float magnitude)" == "int x, int y, int z, float magnitude" + ")"
  {
  }

  lemma DistortTextPrefix()
    ensures "Vector3 distort(" == [] + "Vector3" + " " + "distort" + "("
  {
  }

  lemma DistortArgumentsText1()
    ensures "int x, int y, int z, float magnitude" == "int x, " + "int y, int z, float magnitude"
  {
  }

  lemma DistortArgumentsText2()
    ensures "int y, int z, float magnitude" == "int y, " + "int z, float magnitude"
  {
  }

  lemma DistortArgumentsText3()
    ensures "int z, float magnitude" == "int z, " + "float magnitude"
  {
  }

  lemma DistortArgumentsTextHeads()
    ensures "int x, " == "int" + " " + "x" + ", "
    ensures "int y, " == "int" + " " + "y" + ", "
    ensures "int z, " == "int" + " " + "z" + ", "
  {
  }

  lemma DistortLastArgumentRendered()
    ensures RenderArguments([Argument("float", "magnitude")]) == "float magnitude"
  {
  }

  lemma DistortArgumentsRendered2()
    ensures RenderArguments([Argument("int", "z"), Argument("float", "magnitude")])
      == "int z, float magnitude"
  {
    DistortArgumentsText3();
    DistortArgumentsTextHeads();
    DistortLastArgumentRendered();
    var a := [Argument("int", "z"), Argument("float", "magnitude")];
    assert a[1..] == [Argument("float", "magnitude")];
    RenderArgumentsCons(a, "int" + " " + "z", "float magnitude");
  }

  lemma DistortArgumentsRendered1()
    ensures RenderArguments([Argument("int", "y"), Argument("int", "z"), Argument("float", "magnitude")])
      == "int y, int z, float magnitude"
  {
    DistortArgumentsText2();
    DistortArgumentsTextHeads();
    DistortArgumentsRendered2();
    var a := [Argument("int", "y"), Argument("int", "z"), Argument("float", "magnitude")];
    assert a[1..] == [Argument("int", "z"), Argument("float", "magnitude")];
    RenderArgumentsCons(a, "int" + " " + "y", "int z, float magnitude");
  }

  lemma DistortArgumentsRendered()
    ensures RenderArguments(DistortArguments()) == "int x, int y, int z, float magnitude"
  {
    DistortArgumentsText1();
    DistortArgumentsTextHeads();
    DistortArgumentsRendered1();
    var a := DistortArguments();
    assert a[1..] == [Argument("int", "y"), Argument("int", "z"), Argument("float", "magnitude")];
    RenderArgumentsCons(a, "int" + " " + "x", "int y, int z, float magnitude");
  }

  lemma DistortRendered()
    ensures Render(Signature(None, "Vector3", "distort", DistortArguments()))
      == "Vector3 distort(int x, int y, int z, float magnitude)"
  {
    DistortText();
    DistortTextTail();
    DistortTextPrefix();
    DistortArgumentsRendered();
    RenderParts(Signature(None, "Vector3", "distort", DistortArguments()),
      "Vector3 distort(", "int x, int y, int z, float magnitude");
  }

  lemma DistortWellFormed()
    ensures WellFormed(Signature(None, "Vector3", "distort", DistortArguments()))
  {
    DistortWords();
    DistortArgumentWords();
    DistortMagnitudeWord();
    var args := DistortArguments();
    forall a | a in args ensures Identifier(a.argType) && Identifier(a.argName) {
      assert a == args[0] || a == args[1] || a == args[2] || a == args[3];
    }
  }

  /** `Vector3 distort(int x, int y, int z, float magnitude)`: no modifier, and
      the arguments in their written order. */
  lemma DistortExample()
    ensures Parse("Vector3 distort(int x, int y, int z, float magnitude)") ==
      Success(Signature(None, "Vector3", "distort",
        [Argument("int", "x"), Argument("int", "y"), Argument("int", "z"), Argument("float", "magnitude")]))
  {
    DistortRendered();
    DistortWellFormed();
    ParseRender(Signature(None, "Vector3", "distort", DistortArguments()));
  }

  // Inputs outside the documented format.

  /** An empty string has no tokens: reading index 0 fails on an empty list. */
  lemma EmptyExample()
    ensures Parse("") == Failure(IndexOutOfBounds(0, 0))
  {
    StringSplitter.SplitEmpty("", SignatureSeparators);
  }

  /** A modifier alone: the method name at index 2 is missing from a list of one. */
  lemma ModifierOnlyExample()
    ensures Parse("public") == Failure(IndexOutOfBounds(2, 1))
  {
    CurrentDateTimeWords();
    ModifiersAreIdentifiers("public");
    StringSplitter.SplitWhole("public", SignatureSeparators);
  }

  /** A return type alone: the method name at index 1 is missing from a list of one. */
  lemma ReturnTypeOnlyExample()
    ensures Parse("void") == Failure(IndexOutOfBounds(1, 1))
  {
    StringSplitter.SplitWhole("void", SignatureSeparators);
  }

  /** A type without a name is dropped: the last token is read only in pairs. */
  lemma UnpairedTokenExample()
    ensures Decode(["void", "run", "int"]) == Success(Signature(None, "void", "run", []))
  {
  }
}
