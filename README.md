# Method signature parser

A model of the two pieces of the `stage1-module2-strings-task` repository that
turn a one-line, Java-style method signature such as
`private void log(String value)` into a `MethodSignature` record.

- **Tokenizer** (`StringSplitter.splitByDelimiters`, module `StringSplitter`,
  file `string_splitter.dfy`). The code builds the pattern
  `"[" + String.join("|", delimiters) + "]"`, splits the source on it and drops
  the empty pieces. Because of the brackets the pattern is a character class.
  Every character of every delimiter is a separator on its own, and so is the
  joining `'|'` once there are two or more delimiters. The delimiters are not
  matched as literal substrings. The documentation of the method speaks of
  "delimiter strings"; the model follows the code. `SepsOf` computes the
  separator set. `Split` is the split (`Pieces`) followed by the filter
  (`NonEmpty`). Its results are characterised exactly: they are the maximal
  non-empty runs of non-separator characters, in source order
  (`IsLayout`, `SplitLayout`, `SplitUnique`).
- **Positional decoder** (`MethodParser.parseFunction`, `withModifier`,
  `withoutModifier`, `setArguments` and the index constants; module
  `MethodParser`, file `method_parser.dfy`).
  - The signature is tokenized with the fixed delimiters
    `" "`, `"("`, `", "`, `")"`. The effective separators are
    `' '`, `'('`, `','`, `')'` and `'|'`.
  - If token 0 is `public`, `protected` or `private` it is the access modifier.
    The return type, the method name and the first argument then sit one
    position further right.
  - `setArguments` appends `(type, name)` pairs in a counting loop that
    silently drops an unpaired last token.
  - `MethodSignature` is a class whose fields the setters change. The methods
    are proved against the functions `Decode` (token list to record) and
    `Parse` (string to record).
  - A `List.get` past the end of the token list is an
    `IndexOutOfBounds(index, size)` failure of a `Result`.
- **Signature format** (module `SignatureGrammar`, file
  `signature_grammar.dfy`). `Render` writes a signature in the format the
  documentation of `parseFunction` describes. `ParseRender` proves that parsing
  what it writes gives the signature back, for every signature the parser can
  tell apart. That excludes two cases the format can write. The first is no
  modifier and a return type that is itself `public`, `protected` or `private`
  (as in `public foo()`): `RenderModifierReturnType` proves that the parser
  takes that return type for the modifier, so the round trip fails there. The
  second is a word holding `'|'`, which the format does not forbid but the
  tokenizer cuts at, because joining the delimiters with `|` puts that
  character into the class: `PipeInNameExample` proves that `void a|b()` is
  read with method name `a`. The three documented examples, and a few inputs
  outside the format, are proved as lemmas.

`wrappers.dfy` holds the `Option` and `Result` datatypes.

## Model

| member | source | states |
|---|---|---|
| StringSplitter.Join | src/main/java/com/epam/mjc/StringSplitter.java:17 | `String.join(sep, parts)`; its partner `JoinChars` states which characters the joined string holds |
| StringSplitter.JoinChars | src/main/java/com/epam/mjc/StringSplitter.java:17 | a character occurs in `String.join(sep, parts)` exactly when it occurs in a part, or in the separator when there are two or more parts |
| StringSplitter.SepsOf | src/main/java/com/epam/mjc/StringSplitter.java:17 | a character is in the bracketed class exactly when it occurs in some delimiter, or is `'\|'` and there are at least two delimiters |
| StringSplitter.Pieces | src/main/java/com/epam/mjc/StringSplitter.java:18 | `split` on the class with its trailing empty pieces kept: there is at least one piece, no piece holds a separator, and the first piece is empty exactly when the source is empty or starts with a separator |
| StringSplitter.PiecesCut | src/main/java/com/epam/mjc/StringSplitter.java:18 | the pieces are cut at every separator: a separator between `x` and `y` gives the pieces of `x` followed by the pieces of `y` |
| StringSplitter.PiecesWhole | src/main/java/com/epam/mjc/StringSplitter.java:18 | a separator-free string is exactly one piece, itself; with `PiecesCut` this fixes the pieces as the substrings between consecutive separators |
| StringSplitter.NonEmpty | src/main/java/com/epam/mjc/StringSplitter.java:18 | the filter keeps only non-empty strings, each one taken from the pieces |
| StringSplitter.NonEmptyAppend | src/main/java/com/epam/mjc/StringSplitter.java:18 | the filter distributes over concatenation and keeps one piece exactly when it is non-empty: every non-empty piece is kept, in order, and every empty one dropped |
| StringSplitter.Split | src/main/java/com/epam/mjc/StringSplitter.java:18 | no token is empty and no token contains a separator character |
| StringSplitter.SplitByDelimiters | src/main/java/com/epam/mjc/StringSplitter.java:15-18 | the same for the separator set built from the delimiters |
| StringSplitter.SplitConcat | src/main/java/com/epam/mjc/StringSplitter.java:9-18 | order is kept: the tokens laid end to end are the source with every separator character deleted |
| StringSplitter.SplitCons | src/main/java/com/epam/mjc/StringSplitter.java:18 | a leading separator is skipped; a leading non-separator starts a new token when a separator or the end follows, and otherwise joins the first token of the rest |
| StringSplitter.SplitLayout | src/main/java/com/epam/mjc/StringSplitter.java:17-18 | the source is the tokens interleaved with runs of separators, with a non-empty run between every two tokens: each token is a maximal run of non-separators |
| StringSplitter.SplitUnique | src/main/java/com/epam/mjc/StringSplitter.java:17-18 | conversely, any such decomposition of the source into maximal runs is the one `Split` returns |
| StringSplitter.SplitEmpty | src/main/java/com/epam/mjc/StringSplitter.java:18 | the result is empty exactly when the source is empty or made only of separator characters |
| StringSplitter.SplitWhole | src/main/java/com/epam/mjc/StringSplitter.java:18 | a non-empty source without separator characters gives exactly `[source]` |
| StringSplitter.CommaSpaceExample | src/main/java/com/epam/mjc/StringSplitter.java:17 | the delimiter `", "` makes `','` and `' '` separators on their own: `"a,b c"` gives `["a", "b", "c"]` |
| StringSplitter.EmptyDelimitersExample | src/main/java/com/epam/mjc/StringSplitter.java:17 | a single empty delimiter gives the empty class `"[]"`; two empty ones give `"[\|]"`, a valid class of the one separator `'\|'` |
| StringSplitter.CommaExamples | src/main/java/com/epam/mjc/StringSplitter.java:18 | adjacent separators give no empty token (`"a,b,,c"` gives `["a", "b", "c"]`), and the empty source gives no tokens |
| MethodParser.IndexLayout | src/main/java/com/epam/mjc/MethodParser.java:8-14 | the index constants: after the modifier at index 0, return type, method name and first argument sit at the next three positions (1, 2, 3); without a modifier each sits one position further left (0, 1, 2) |
| MethodParser.Signature | src/main/java/com/epam/mjc/MethodParser.java:56-63 | the value of a filled `MethodSignature`: an optional modifier, return type, method name and the list of `Argument(type, name)` pairs `setArguments` builds; `ParseError` is the `IndexOutOfBounds(index, size)` a failed `List.get` raises |
| MethodParser.SignatureSeparatorsOf | src/main/java/com/epam/mjc/MethodParser.java:35 | the fixed delimiters separate on exactly `' '`, `'('`, `','`, `')'` and `'\|'` |
| MethodParser.SignatureDelimitersValid | src/main/java/com/epam/mjc/MethodParser.java:35 | the fixed delimiters hold no class metacharacter and give a non-empty class, the tokenizer's assumption |
| MethodParser.Tokens | src/main/java/com/epam/mjc/MethodParser.java:35 | the tokens are `splitByDelimiters` with the fixed delimiters, whose separator set `SignatureSeparatorsOf` computes; the `StringSplitter` lemmas state what they are |
| MethodParser.Decode | src/main/java/com/epam/mjc/MethodParser.java:36-65 | what `parseFunction` computes from the token list; `DecodeErrors` and `DecodeFields` state its failures and its fields, and `ParseRender` inverts it |
| MethodParser.Parse | src/main/java/com/epam/mjc/MethodParser.java:33-40 | `Decode` of the tokens of the string; `ParseFunction` is proved to compute it, and `ParseRender` and the examples state what it returns |
| MethodParser.Pairs | src/main/java/com/epam/mjc/MethodParser.java:55-65 | the pairs the loop of `setArguments` appends; `PairsShape` gives their number and each pair in closed form, and `PairsFlatten` inverts it |
| MethodParser.ArgumentCount | src/main/java/com/epam/mjc/MethodParser.java:55 | the number of iterations of `for (i = start; i <= size - 2; i += 2)`: every index `start + 2k` below it passes the loop test and `start + 2n` fails it |
| MethodParser.DecodeErrors | src/main/java/com/epam/mjc/MethodParser.java:36-48 | parsing fails exactly when the token list is empty, or has fewer than 3 tokens after a modifier, or fewer than 2 without one; the error is the index read (0, 2 or 1) and the list's size |
| MethodParser.DecodeFields | src/main/java/com/epam/mjc/MethodParser.java:36-54 | the modifier is set, to token 0, exactly when token 0 is a modifier keyword; return type and name are tokens 1 and 2 after a modifier and 0 and 1 without; there are at least `start` tokens and `(size - start) / 2` arguments, with `start` 3 or 2, and argument `k` is the pair at `start + 2k`, `start + 2k + 1` |
| MethodParser.PairsShape | src/main/java/com/epam/mjc/MethodParser.java:55-65 | the loop reads `(size - start) / 2` pairs when `size >= start`, and none otherwise; an odd last token is dropped, and pair `k` is made of the tokens at `start + 2k` and `start + 2k + 1` |
| MethodParser.ParseFunction | src/main/java/com/epam/mjc/MethodParser.java:33-40 | returns a new record holding `Parse` of the string when parsing succeeds, and the same index-out-of-bounds error when it fails |
| MethodParser.WithoutModifier | src/main/java/com/epam/mjc/MethodParser.java:42-45 | succeeds exactly when there are at least 2 tokens, with no modifier, return type token 0, name token 1 and the pairs from index 2, and otherwise fails reading index 1 |
| MethodParser.WithModifier | src/main/java/com/epam/mjc/MethodParser.java:47-51 | succeeds exactly when there are at least 3 tokens, with modifier token 0, return type token 1, name token 2 and the pairs from index 3, and otherwise fails reading index 2 |
| MethodParser.SetArguments | src/main/java/com/epam/mjc/MethodParser.java:53-67 | sets the return type and appends exactly the pairs read from the start index, as many as the loop runs, to the arguments already there; nothing else changes |
| MethodParser.MethodSignature.constructor | src/main/java/com/epam/mjc/MethodParser.java:43 | a new record has the given name, no modifier and no arguments |
| MethodParser.MethodSignature.SetAccessModifier | src/main/java/com/epam/mjc/MethodParser.java:49 | sets the modifier and nothing else |
| MethodParser.MethodSignature.SetReturnType | src/main/java/com/epam/mjc/MethodParser.java:54 | sets the return type and nothing else |
| MethodParser.MethodSignature.AddArgument | src/main/java/com/epam/mjc/MethodParser.java:56-64 | appends one argument at the end of the list and changes nothing else |
| SignatureGrammar.SplitRenderArguments | src/main/java/com/epam/mjc/MethodParser.java:22-23 | a rendered argument list with its closing parenthesis splits into the flat list `type1, name1, type2, name2, ...` |
| SignatureGrammar.TokensRender | src/main/java/com/epam/mjc/MethodParser.java:17-25 | a rendered signature splits into the modifier (if any), the return type, the method name and the flat argument pairs |
| SignatureGrammar.PairsFlatten | src/main/java/com/epam/mjc/MethodParser.java:55-65 | reading pairs from after the prefix of a flat argument list gives back every argument, in order |
| SignatureGrammar.ParseRender | src/main/java/com/epam/mjc/MethodParser.java:16-31 | round trip: parsing a signature written in the documented format gives that signature back, for every signature whose fields are separator-free words and which has a modifier keyword or a return type that is not one |
| SignatureGrammar.RenderModifierReturnType | src/main/java/com/epam/mjc/MethodParser.java:36-37 | without a modifier, a return type that is a modifier keyword is read as the modifier: the round trip fails, and `public foo()` fails reading index 2 of two tokens |
| SignatureGrammar.PipeInNameExample | src/main/java/com/epam/mjc/MethodParser.java:35 | a method name holding `'|'` is cut there by the tokenizer: the rendered `void a|b()` is read back with method name `a` and no arguments, so the round trip needs words free of `'|'` |
| SignatureGrammar.LogExample | src/main/java/com/epam/mjc/MethodParser.java:26 | `private void log(String value)` gives modifier `private`, return type `void`, name `log` and the one argument `(String, value)` |
| SignatureGrammar.DistortExample | src/main/java/com/epam/mjc/MethodParser.java:27 | `Vector3 distort(int x, int y, int z, float magnitude)` gives no modifier, return type `Vector3`, name `distort` and the four arguments in written order |
| SignatureGrammar.CurrentDateTimeExample | src/main/java/com/epam/mjc/MethodParser.java:28 | `public DateTime getCurrentDateTime()` gives modifier `public`, return type `DateTime`, name `getCurrentDateTime` and no arguments |
| SignatureGrammar.EmptyExample | src/main/java/com/epam/mjc/MethodParser.java:36 | the empty string fails reading index 0 of an empty token list |
| SignatureGrammar.ModifierOnlyExample | src/main/java/com/epam/mjc/MethodParser.java:48 | `public` alone fails reading index 2 of a list of one token |
| SignatureGrammar.ReturnTypeOnlyExample | src/main/java/com/epam/mjc/MethodParser.java:43 | `void` alone fails reading index 1 of a list of one token |
| SignatureGrammar.UnpairedTokenExample | src/main/java/com/epam/mjc/MethodParser.java:55 | the tokens `void run int` give no arguments: the unpaired last token is dropped |

## Left out

- `main` (MethodParser.java:69-72): a demo call whose result is discarded.
- StringSplitter.SplitByDelimiters: requires that no delimiter character is a character-class metacharacter (`\ [ ] ^ - &`) and that the class is not empty. With such characters the pattern means something else, or is rejected with `PatternSyntaxException` (for no delimiters, or a single empty one, the pattern is `"[]"`; two empty ones give `"[|]"`, which splits on `'|'`). The regular-expression engine itself is not modelled.
- The `result` list allocated and never used (StringSplitter.java:16), and the `Collection`, `Stream` and `ArrayList` mechanics: lists are sequences.
- StringSplitter.Pieces: `String.split` also removes trailing empty strings (`",".split("[,]")` is an empty array). The model keeps them in `Pieces`, which cannot change the result, because the filter removes every empty piece.
- Java strings are UTF-16 code units and Dafny's `char` is a Unicode scalar value. Sources whose characters split into surrogate pairs are not covered.
- `MethodSignature` and its `Argument` class are not part of this model beyond the four fields and the setters the parser calls. Equality, `toString` and `getArguments` are left out. `getArguments().add` is modelled by `AddArgument`.
- MethodParser.MethodSignature.constructor: the model assumes a new record has no modifier and an empty argument list. Its return type starts as the empty string, where Java presumably holds `null`; it is overwritten before any record is returned.
- MethodParser.SetArguments: requires the return-type index to lie inside the token list. Both callers reach it only after reading the method name, which lies further right, so the failure Java would raise there cannot happen.
- In the model a failed `List.get` is a returned error value, not a thrown exception. Nothing else in the parser catches or observes it.
