/**
  The positional decoder `MethodParser.parseFunction`.

  The signature string is split with the fixed delimiters `" "`, `"("`, `", "` and
  `")"`. If the first token is `public`, `protected` or `private` it is the access
  modifier, and the return type, the method name and the first argument sit one
  position further right. The remaining tokens are taken two at a time as
  (type, name) pairs; an unpaired last token is ignored. A token list that is too
  short for the positions read fails as `List.get` does, with an index out of
  bounds.
*/
module MethodParser {
  import opened Wrappers
  import StringSplitter

  const ArgumentStartIndexWithAccessModifier: nat := 3
  const ArgumentStartIndexWithoutAccessModifier: nat := 2
  const ReturnTypeIndexWithAccessModifier: nat := 1
  const ReturnTypeIndexWithoutAccessModifier: nat := 0
  const MethodNameIndexWithAccessModifier: nat := 2
  const MethodNameIndexWithoutAccessModifier: nat := 1
  const AccessModifierIndex: nat := 0

  /** The layout the index constants encode: with a modifier at index 0 the
      return type, the method name and the first argument follow it at
      consecutive positions; without one each of them sits one position
      further left. */
  lemma IndexLayout()
    ensures ReturnTypeIndexWithAccessModifier == AccessModifierIndex + 1
    ensures MethodNameIndexWithAccessModifier == ReturnTypeIndexWithAccessModifier + 1
    ensures ArgumentStartIndexWithAccessModifier == MethodNameIndexWithAccessModifier + 1
    ensures ReturnTypeIndexWithoutAccessModifier == AccessModifierIndex
    ensures MethodNameIndexWithoutAccessModifier == ReturnTypeIndexWithoutAccessModifier + 1
    ensures ArgumentStartIndexWithoutAccessModifier == MethodNameIndexWithoutAccessModifier + 1
  {
  }

  const AccessModifiers: seq<string> := ["public", "protected", "private"]
  const SignatureDelimiters: seq<string> := [" ", "(", ", ", ")"]

  /** The characters the signature is split on, the joining `'|'` included. */
  const SignatureSeparators: set<char> := {' ', '(', ',', ')', '|'}

  /** One parameter of the signature. */
  datatype Argument = Argument(argType: string, argName: string)

  /** The value of a fully populated `MethodSignature`. */
  datatype Signature = Signature(
    accessModifier: Option<string>,
    returnType: string,
    methodName: string,
    arguments: seq<Argument>)

  /** The exception `List.get` throws: the index read and the list's size. */
  datatype ParseError = IndexOutOfBounds(index: nat, size: nat)

  /** The parsed record, filled in through its setters. */
  class MethodSignature {
    var accessModifier: Option<string>
    var returnType: string
    var methodName: string
    var arguments: seq<Argument>

    constructor (methodName: string)
      ensures this.methodName == methodName
      ensures accessModifier == None && arguments == []
    {
      this.methodName := methodName;
      accessModifier := None;
      returnType := [];
      arguments := [];
    }

    method SetAccessModifier(accessModifier: string)
      modifies this`accessModifier
      ensures this.accessModifier == Some(accessModifier)
    {
      this.accessModifier := Some(accessModifier);
    }

    method SetReturnType(returnType: string)
      modifies this`returnType
      ensures this.returnType == returnType
    {
      this.returnType := returnType;
    }

    /** `getArguments().add(argument)`. */
    method AddArgument(argument: Argument)
      modifies this`arguments
      ensures arguments == old(arguments) + [argument]
    {
      arguments := arguments + [argument];
    }

    /** The record's current contents. */
    function Value(): (value: Signature)
      reads this
    {
      Signature(accessModifier, returnType, methodName, arguments)
    }
  }

  /** The (type, name) pairs read by the loop of `setArguments` when it starts at
      index `start`: one pair for every index `i = start, start + 2, ...` that
      still has a partner at `i + 1`. */
  function Pairs(tokens: seq<string>, start: nat): (pairs: seq<Argument>)
    decreases |tokens| - start
  {
    if start + 1 < |tokens| then [Argument(tokens[start], tokens[start + 1])] + Pairs(tokens, start + 2)
    else []
  }

  /** The number of iterations of `for (i = start; i <= size - 2; i += 2)`. */
  function ArgumentCount(size: nat, start: nat): (n: nat)
    ensures forall k | 0 <= k < n :: start + 2 * k <= size - 2
    ensures !(start + 2 * n <= size - 2)
  {
    if size >= start then (size - start) / 2 else 0
  }

  /** Pair `k` is made of the tokens at `start + 2k` and `start + 2k + 1`, and
      there are as many pairs as the loop runs; an odd last token is dropped. */
  lemma {:induction false} PairsShape(tokens: seq<string>, start: nat)
    ensures |Pairs(tokens, start)| == ArgumentCount(|tokens|, start)
    ensures forall k | 0 <= k < |Pairs(tokens, start)| ::
      start + 2 * k + 1 < |tokens| &&
      Pairs(tokens, start)[k] == Argument(tokens[start + 2 * k], tokens[start + 2 * k + 1])
    decreases |tokens| - start
  {
    if start + 1 < |tokens| {
      PairsShape(tokens, start + 2);
      var p := Pairs(tokens, start);
      forall k | 0 <= k < |p|
        ensures start + 2 * k + 1 < |tokens|
        ensures p[k] == Argument(tokens[start + 2 * k], tokens[start + 2 * k + 1])
      {
        if k > 0 {
          assert p[k] == Pairs(tokens, start + 2)[k - 1];
          assert start + 2 + 2 * (k - 1) == start + 2 * k;
        }
      }
    }
  }

  /** What `parseFunction` computes from the token list. */
  function Decode(tokens: seq<string>): (r: Result<Signature, ParseError>)
  {
    if |tokens| <= AccessModifierIndex then
      Failure(IndexOutOfBounds(AccessModifierIndex, |tokens|))
    else if tokens[AccessModifierIndex] in AccessModifiers then
      if |tokens| <= MethodNameIndexWithAccessModifier then
        Failure(IndexOutOfBounds(MethodNameIndexWithAccessModifier, |tokens|))
      else
        Success(Signature(
          Some(tokens[AccessModifierIndex]),
          tokens[ReturnTypeIndexWithAccessModifier],
          tokens[MethodNameIndexWithAccessModifier],
          Pairs(tokens, ArgumentStartIndexWithAccessModifier)))
    else if |tokens| <= MethodNameIndexWithoutAccessModifier then
      Failure(IndexOutOfBounds(MethodNameIndexWithoutAccessModifier, |tokens|))
    else
      Success(Signature(
        None,
        tokens[ReturnTypeIndexWithoutAccessModifier],
        tokens[MethodNameIndexWithoutAccessModifier],
        Pairs(tokens, ArgumentStartIndexWithoutAccessModifier)))
  }

  /** The effective separators of the fixed delimiters. */
  lemma SignatureSeparatorsOf()
    ensures StringSplitter.SepsOf(SignatureDelimiters) == SignatureSeparators
  {
    var d := SignatureDelimiters;
    assert ' ' in d[0] && '(' in d[1] && ',' in d[2] && ')' in d[3];
    forall c | c in StringSplitter.SepsOf(d) ensures c in SignatureSeparators {
      if c != '|' {
        var i :| 0 <= i < |d| && c in d[i];
        assert i == 0 || i == 1 || i == 2 || i == 3;
      }
    }
  }

  /** The fixed delimiters meet the tokenizer's assumption. */
  lemma SignatureDelimitersValid()
    ensures StringSplitter.ValidDelimiters(SignatureDelimiters)
  {
    SignatureSeparatorsOf();
    var d := SignatureDelimiters;
    assert ' ' in StringSplitter.SepsOf(d);
    forall i, c | 0 <= i < |d| && c in d[i] ensures c !in StringSplitter.ClassMetacharacters {
      assert i == 0 || i == 1 || i == 2 || i == 3;
      assert c == ' ' || c == '(' || c == ',' || c == ')';
    }
  }

  /** The tokens of a signature string: by `SignatureSeparatorsOf`, what
      `splitByDelimiters` returns for the fixed delimiters. */
  function Tokens(signatureString: string): (tokens: seq<string>)
  {
    StringSplitter.Split(signatureString, SignatureSeparators)
  }

  /** What `parseFunction` returns for a signature string. */
  function Parse(signatureString: string): (r: Result<Signature, ParseError>)
  {
    Decode(Tokens(signatureString))
  }

  /** The branch on the first token and the failure cases: a signature fails
      exactly when the token list is shorter than the positions it reads, and
      the error names the first index read past the end. */
  lemma DecodeErrors(tokens: seq<string>)
    ensures Decode(tokens).Failure? <==>
      || |tokens| == 0
      || (tokens[0] in AccessModifiers && |tokens| < 3)
      || (tokens[0] !in AccessModifiers && |tokens| < 2)
    ensures Decode(tokens).Failure? ==> Decode(tokens).error == IndexOutOfBounds(
      if |tokens| == 0 then 0 else if tokens[0] in AccessModifiers then 2 else 1, |tokens|)
  {
  }

  /** The positional grammar: the access modifier is set, to token 0, exactly when
      token 0 is a modifier keyword; return type and name follow it; argument `k`
      is the pair of tokens at `start + 2k` and `start + 2k + 1`, with `start` 3
      after a modifier and 2 without one. */
  lemma DecodeFields(tokens: seq<string>)
    requires Decode(tokens).Success?
    ensures var sig := Decode(tokens).value;
      var hasModifier := tokens[0] in AccessModifiers;
      var start := if hasModifier then 3 else 2;
      && |tokens| >= start
      && (sig.accessModifier.Some? <==> hasModifier)
      && (hasModifier ==> sig.accessModifier.value == tokens[0])
      && sig.returnType == tokens[start - 2]
      && sig.methodName == tokens[start - 1]
      && |sig.arguments| == ArgumentCount(|tokens|, start)
      && forall k | 0 <= k < |sig.arguments| ::
           start + 2 * k + 1 < |tokens| &&
           sig.arguments[k] == Argument(tokens[start + 2 * k], tokens[start + 2 * k + 1])
  {
    PairsShape(tokens, if tokens[0] in AccessModifiers then 3 else 2);
  }

  /** `parseFunction`. */
  method ParseFunction(signatureString: string) returns (r: Result<MethodSignature, ParseError>)
    ensures r.Success? <==> Parse(signatureString).Success?
    ensures r.Success? ==> fresh(r.value) && r.value.Value() == Parse(signatureString).value
    ensures r.Failure? ==> r.error == Parse(signatureString).error
  {
    SignatureSeparatorsOf();
    SignatureDelimitersValid();
    var signatureList := StringSplitter.SplitByDelimiters(signatureString, SignatureDelimiters);
    if |signatureList| <= AccessModifierIndex {
      return Failure(IndexOutOfBounds(AccessModifierIndex, |signatureList|));
    }
    if signatureList[AccessModifierIndex] in AccessModifiers {
      r := WithModifier(signatureList);
    } else {
      r := WithoutModifier(signatureList);
    }
  }

  /** `withoutModifier`. */
  method WithoutModifier(signatureList: seq<string>) returns (r: Result<MethodSignature, ParseError>)
    ensures r.Success? <==> |signatureList| > MethodNameIndexWithoutAccessModifier
    ensures r.Success? ==> fresh(r.value) && r.value.Value() == Signature(
      None,
      signatureList[ReturnTypeIndexWithoutAccessModifier],
      signatureList[MethodNameIndexWithoutAccessModifier],
      Pairs(signatureList, ArgumentStartIndexWithoutAccessModifier))
    ensures r.Failure? ==> r.error == IndexOutOfBounds(MethodNameIndexWithoutAccessModifier, |signatureList|)
  {
    if |signatureList| <= MethodNameIndexWithoutAccessModifier {
      return Failure(IndexOutOfBounds(MethodNameIndexWithoutAccessModifier, |signatureList|));
    }
    var methodSignature := new MethodSignature(signatureList[MethodNameIndexWithoutAccessModifier]);
    SetArguments(signatureList, methodSignature,
      ReturnTypeIndexWithoutAccessModifier, ArgumentStartIndexWithoutAccessModifier);
    return Success(methodSignature);
  }

  /** `withModifier`. */
  method WithModifier(signatureList: seq<string>) returns (r: Result<MethodSignature, ParseError>)
    ensures r.Success? <==> |signatureList| > MethodNameIndexWithAccessModifier
    ensures r.Success? ==> fresh(r.value) && r.value.Value() == Signature(
      Some(signatureList[AccessModifierIndex]),
      signatureList[ReturnTypeIndexWithAccessModifier],
      signatureList[MethodNameIndexWithAccessModifier],
      Pairs(signatureList, ArgumentStartIndexWithAccessModifier))
    ensures r.Failure? ==> r.error == IndexOutOfBounds(MethodNameIndexWithAccessModifier, |signatureList|)
  {
    if |signatureList| <= MethodNameIndexWithAccessModifier {
      return Failure(IndexOutOfBounds(MethodNameIndexWithAccessModifier, |signatureList|));
    }
    var methodSignature := new MethodSignature(signatureList[MethodNameIndexWithAccessModifier]);
    methodSignature.SetAccessModifier(signatureList[AccessModifierIndex]);
    SetArguments(signatureList, methodSignature,
      ReturnTypeIndexWithAccessModifier, ArgumentStartIndexWithAccessModifier);
    return Success(methodSignature);
  }

  /** `setArguments`: sets the return type, then appends one argument per
      (type, name) pair from `argumentStartIndex` on, in source order. */
  method SetArguments(
    signatureList: seq<string>, methodSignature: MethodSignature,
    returnTypeIndex: nat, argumentStartIndex: nat)
    requires returnTypeIndex < |signatureList|
    modifies methodSignature`returnType, methodSignature`arguments
    ensures methodSignature.returnType == signatureList[returnTypeIndex]
    ensures methodSignature.arguments ==
      old(methodSignature.arguments) + Pairs(signatureList, argumentStartIndex)
    ensures |methodSignature.arguments| ==
      |old(methodSignature.arguments)| + ArgumentCount(|signatureList|, argumentStartIndex)
  {
    methodSignature.SetReturnType(signatureList[returnTypeIndex]);
    var i: int := argumentStartIndex;
    while i <= |signatureList| - 2
      invariant argumentStartIndex <= i
      invariant (i - argumentStartIndex) % 2 == 0
      invariant i <= |signatureList| || i == argumentStartIndex
      invariant |methodSignature.arguments| ==
        |old(methodSignature.arguments)| + (i - argumentStartIndex) / 2
      invariant methodSignature.arguments + Pairs(signatureList, i) ==
        old(methodSignature.arguments) + Pairs(signatureList, argumentStartIndex)
      invariant methodSignature.returnType == signatureList[returnTypeIndex]
      decreases |signatureList| - i
    {
      methodSignature.AddArgument(Argument(signatureList[i], signatureList[i + 1]));
      i := i + 2;
    }
  }
}
