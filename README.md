# cmath expression core in Dafny

A model of the expression core of the `cmath` calculator:

- the tokenizer and the recursive-descent parser of `src/cmath/expr_parser.cc`;
- the expression tree of `src/cmath/expr.cc`, with its rendering (`str`), evaluation (`calculate`) and structural comparison (`compare`);
- the scoped symbol table and function calls of `src/cmath/expr.cc`;
- the `Precedence` order and the `Number` type of `src/cmath/expr.h`.

Modules, each in its own file:

| module | models |
|---|---|
| `Wrappers` | `Option`, `Result` and `Outcome`. These stand for a null pointer, a thrown error code and a `void` operation that may throw. |
| `Numbers` | `Number` as an exact complex value `Complex(re, im)` or the sentinel `NaN`. Library functions (`pow`, `exp`) are parameters. |
| `Lexer` | Tokens, error codes, the tokenizer as a function `Next` on a cursor, the digit-run arithmetic and `ErrorCategory::message`. |
| `Parsing` | The grammar rules as functions on a cursor (`ParseAt`, `FoldLoop`, `ParsePrimary`, `ParseSpec`), plus the class `ExprParser`. The class holds the fields `expression`, `position` and `token`, and its methods are proved to compute exactly those functions. |
| `ParsingProofs` | What the parser accepts and rejects. Every tree the grammar can build is read back from its text, which shows precedence and left grouping. Each error case has its own lemma. The corrected rendering reads back as the tree it came from. |
| `Ast` | The node classes as one datatype, operator precedences, `str` as written and corrected, the `DefineExpr` guard, and `compare` as written and corrected. |
| `SymbolTables` | The scope chain as a value (`Scope`) and the mutable `SymbolTable` class. The class has its define methods and innermost-first lookup. |
| `Evaluation` | `calculate` for every node. It includes the factorial loop as a method, the sentinels of `=` and `<`, the Euler branch of `^`, and `NativeFunction::call` and `CustomFunction::call`. |

## The end of the input

`eof()` is used by the parser but defined in none of the files modelled. It is modelled as "the cursor stands at the end of the input" (`position == |expression|`). This reading is required by the digit loop at `src/cmath/expr_parser.cc:164`, where `eof()` guards reading the current character.

The parser's loops (`while (!eof())`) and the final test in `parse` use the same condition. So they stop as soon as the last token has been read, not when it has been consumed. Consequences:

- One operator, parenthesis or letter after a complete expression is never looked at. `1+`, `1)` and `ab` are accepted as `1`, `1` and `a` (`ParsingProofs.LastTokenIgnored`).
- A second unconsumed token leaves the cursor short of the end, so the parse fails with `UnexpectedToken`. `abc` and `1)2` are examples (`ParsingProofs.UnconsumedTokenRejected`).

## Behaviour of the code worth knowing

- **Whitespace.** The tokenizer does not skip it. A space raises `UnexpectedCharacter` (`Lexer.NextRejects`, `ParsingProofs.SpaceRejected`).
- **`^` grouping.** `powExpr` is a loop like the others, so `^` folds left: `a^b^c` is `(a^b)^c` (`ParsingProofs.PowGroupsLeft`).
- **Unresolved symbols.** An unresolved symbol evaluates to 0 (`SymbolExpr::calculate`). `SymbolTable::getNumber` of a missing or non-constant name gives the NaN sentinel.
- **Grammar.** The grammar has no factorial, relation, definition or function-call syntax, and a symbol is a single letter. Every tree `parse` returns is made of natural-number literals, one-letter symbols and the five arithmetic operators (`ParsingProofs.ParsedIsParseable`). The other nodes exist only as trees built by other code.
- **Number output.** `NumberExpr::str` writes a real literal with a default `std::stringstream`, at six significant digits: a whole number below 10^6 comes out as its decimal digits, and from 10^6 on in exponent form (`1e+06`), which the grammar cannot read back.

## Model

| member | source | states |
|---|---|---|
| `Lexer.OperatorToken` | src/cmath/expr_parser.cc:127-151 | Exactly the seven characters `+ - * / ^ ( )` are one-character tokens, each giving its own token: `+` Plus, `-` Minus, `*` Mul, `/` Div, `^` Pow, `(` and `)` the parentheses. |
| `Lexer.Next` | src/cmath/expr_parser.cc:123-173 | At the end of the input it yields `Eof` without moving. Otherwise it moves the cursor forward, staying within the input. `Eof` is produced exactly at the end. It fails exactly when the current character starts no token, and then always with `UnexpectedCharacter`. A symbol token always holds a letter. |
| `Lexer.NextOperator` | src/cmath/expr_parser.cc:127-148 | Each of `+ - * / ^ ( )` is its own token and advances the cursor by exactly one. |
| `Lexer.NextLetter` | src/cmath/expr_parser.cc:153-158 | A letter is a symbol token holding exactly that letter, and the cursor advances by one. |
| `Lexer.NextDigits` | src/cmath/expr_parser.cc:160-170 | A maximal run of digits is one number token whose value is the run read in base 10. The cursor stops just past the last digit. |
| `Lexer.DigitsValueIsPlaceValue` | src/cmath/expr_parser.cc:162-168 | The `n*10+d` accumulation of a digit run equals its positional base-10 value. |
| `Lexer.PlaceValueAppend` | src/cmath/expr_parser.cc:165-166 | Appending a digit multiplies the positional value by ten and adds the digit. |
| `Lexer.DigitsStep` | src/cmath/expr_parser.cc:164-167 | One turn of the digit loop extends the run by one digit, and the accumulated value becomes `n*10+d`. |
| `Lexer.DigitRunEnd` | src/cmath/expr_parser.cc:164 | The loop's stopping point: everything before it is a digit, and it is the end of the input or a non-digit. |
| `Lexer.NatToDigitsRoundTrip` | src/cmath/expr_parser.cc:161-169 | Accumulating the decimal digits of `n` gives back `n`. |
| `Lexer.NextNumberText` | src/cmath/expr_parser.cc:161-169 | The decimal text of `n`, followed by a non-digit or the end, is read as the single token `Num(n)`. |
| `Lexer.NextRejects` | src/cmath/expr_parser.cc:172 | `UnexpectedCharacter` is raised exactly for the characters that start no token, a space among them. |
| `Lexer.Message` | src/cmath/expr_parser.cc:187-196 | Every error code has a non-empty message. |
| `Lexer.CategoryName` | src/cmath/expr_parser.cc:183-185 | The error category's name, `ExprParserError`. |
| `Lexer.MessagesDistinct` | src/cmath/expr_parser.cc:187-196 | Two codes have the same message exactly when they are the same code. |
| `Parsing.LevelOp` | src/cmath/expr_parser.cc:36-87 | `+`/`-` are folded at Addition, `*`/`/` at Multiplication and `^` at Power, and nothing else is folded. The node built has the precedence of the loop that built it. |
| `Parsing.ParseAt` | src/cmath/expr_parser.cc:36-87 | Each rule stays inside the input and never moves backwards. It fails only with `UnexpectedCharacter` or `UnexpectedToken`, never with `UnexpectedEof`. |
| `Parsing.FoldLoop` | src/cmath/expr_parser.cc:38-52 | At the end of the input, or on a token the level does not fold, the loop succeeds with its left operand and leaves the cursor where it was. |
| `Parsing.ParsePrimary` | src/cmath/expr_parser.cc:89-110 | It succeeds only on `(`, a number or a symbol. On any other token it fails with `UnexpectedToken`. |
| `Parsing.ParseSpec` | src/cmath/expr_parser.cc:17-30 | Errors come back as values, and only `UnexpectedCharacter` or `UnexpectedToken`. A first character that starts no token gives `UnexpectedCharacter`. |
| `Parsing.ParseAsWritten` | src/cmath/expr_parser.cc:17-30 | As written, the error escapes `parse` exactly when the first `nextToken` fails. Otherwise the result is that of `ParseSpec`. |
| `Parsing.LeadingBadCharacterEscapes` | src/cmath/expr_parser.cc:20 | An input that starts with a character that starts no token throws out of `parse` as written, while the corrected `parse` returns `UnexpectedCharacter`. |
| `Parsing.ExprParser.constructor` | src/cmath/expr_parser.cc:13-15 | A new parser has an empty input, the cursor at 0 and a value-initialised token, modelled as `Eof`; `parse` overwrites the token before reading it. |
| `Parsing.ExprParser.NextToken` | src/cmath/expr_parser.cc:123-173 | On success the parser moves to the cursor `Next` gives. On an unknown character the state is unchanged and the error is returned. |
| `Parsing.ExprParser.ScanNumber` | src/cmath/expr_parser.cc:160-170 | The digit loop leaves the cursor at the end of the digit run, with a number token holding the run's accumulated value. |
| `Parsing.ExprParser.ConsumeToken` | src/cmath/expr_parser.cc:112-117 | If the current token is not the expected one, it fails with `UnexpectedToken` and changes nothing. Otherwise it reads the next token. |
| `Parsing.ExprParser.PrimaryExpr` | src/cmath/expr_parser.cc:89-110 | It gives the tree, the end state or the error that `ParsePrimary` gives. |
| `Parsing.ExprParser.PowExpr` | src/cmath/expr_parser.cc:74-87 | It gives the tree, the end state or the error that the Power rule gives. |
| `Parsing.ExprParser.MulExpr` | src/cmath/expr_parser.cc:55-72 | It gives the tree, the end state or the error that the Multiplication rule gives. |
| `Parsing.ExprParser.AddExpr` | src/cmath/expr_parser.cc:36-53 | It gives the tree, the end state or the error that the Addition rule gives. |
| `Parsing.ExprParser.Parse` | src/cmath/expr_parser.cc:17-30 | The parser object's result is exactly `ParseSpec(input)`. |
| `ParsingProofs.Rt` | src/cmath/expr_parser.cc:36-110 | The rule of level `p`, started on the text of a tree written for level `p`, returns that tree with the cursor on the token after the text. |
| `ParsingProofs.Spine` | src/cmath/expr_parser.cc:36-87 | A level's rule on the text of a tree binding at least as tightly reaches its loop with that tree as the left operand. |
| `ParsingProofs.SpineNode` | src/cmath/expr_parser.cc:38-51 | The left operand, the operator and the right operand of a node of the loop's own level make one more turn of the loop. |
| `ParsingProofs.RtPrimary` | src/cmath/expr_parser.cc:89-110 | `primaryExpr` reads a number, a letter or a parenthesised text back as its tree. |
| `ParsingProofs.RtParen` | src/cmath/expr_parser.cc:91-96 | `( text )` is read back as the tree of the text, and the `)` is consumed. |
| `ParsingProofs.TopLevel` | src/cmath/expr_parser.cc:17-30 | On input beginning with the text of a tree, where the text is followed by the end of the input, by a token that is the last one, or by a token that ends every loop (`(`, `)` or a letter; never a digit), `parse` returns the tree exactly when the cursor after that token stands at the end. Otherwise it returns `UnexpectedToken`. |
| `ParsingProofs.ParseText` | src/cmath/expr_parser.cc:17-110 | Every tree the grammar builds is what `parse` returns for its text. So `*` and `/` bind tighter than `+` and `-`, `^` binds tighter still, and all of them group to the left. |
| `ParsingProofs.ParsedIsParseable` | src/cmath/expr_parser.cc:17-110 | Conversely, every tree `parse` returns is a grammar tree: natural-number literals, one-letter symbols and the five arithmetic operators. |
| `ParsingProofs.LastTokenIgnored` | src/cmath/expr_parser.cc:23-24 | One operator, parenthesis or letter after a complete expression is ignored, so `1+`, `1)` and `ab` parse as `1`, `1` and `a`. |
| `ParsingProofs.UnconsumedTokenRejected` | src/cmath/expr_parser.cc:23-26 | A parenthesis or letter after a complete expression, followed by more input, gives `UnexpectedToken`. |
| `ParsingProofs.MissingCloseRejected` | src/cmath/expr_parser.cc:89-117 | A `(` followed by a complete text and nothing more gives `UnexpectedToken` (`(1+2`). |
| `ParsingProofs.MissingCloseAfterOperator` | src/cmath/expr_parser.cc:89-108 | After the text of any grammar tree, an operator followed by `(` and a complete text with no `)` gives `UnexpectedToken` (`1+(2`, `2*(3+4`, `a^(b`). |
| `ParsingProofs.LeadingOperatorRejected` | src/cmath/expr_parser.cc:107-108 | An operator or `)` as the first character gives `UnexpectedToken`, whatever follows it. |
| `ParsingProofs.OperandMissing` | src/cmath/expr_parser.cc:36-108 | The rule of any level, reading a tree's text followed by an operator it folds and then no operand (an operator, `)`, or a `(` whose `)` never comes), fails with `UnexpectedToken`. |
| `ParsingProofs.OperatorWithoutOperandRejected` | src/cmath/expr_parser.cc:107-108 | After the text of any grammar tree, an operator followed by an operator or `)` gives `UnexpectedToken`, whatever follows (`1+*2`, `2^)`, `1+2*)`). |
| `ParsingProofs.EmptyRejected` | src/cmath/expr_parser.cc:89-108 | The empty input gives `UnexpectedToken`. |
| `ParsingProofs.SpaceRejected` | src/cmath/expr_parser.cc:172 | `1 2` fails on the space with `UnexpectedCharacter`. |
| `ParsingProofs.MinusGroupsLeft` | src/cmath/expr_parser.cc:36-53 | `1-2-3` is `(1-2)-3`. |
| `ParsingProofs.MulBindsTighter` | src/cmath/expr_parser.cc:36-72 | `1+2*3` is `1+(2*3)`. |
| `ParsingProofs.PowGroupsLeft` | src/cmath/expr_parser.cc:74-87 | `a^b^c` is `(a^b)^c`. |
| `ParsingProofs.ParseObjectReadsText` | src/cmath/expr_parser.cc:17-30 | A fresh parser object returns every grammar tree for its text. |
| `ParsingProofs.StrGroupedIsSpacedText` | src/cmath/expr.cc:204-220 | For a tree with literals below 10^6, written as stream output writes them, the corrected rendering, with its spaces removed, is the grammar's text of the tree. |
| `ParsingProofs.StrGroupedReparses` | src/cmath/expr.cc:204-220 | For a tree with literals below 10^6, the corrected rendering with its spaces removed parses back to the tree it came from. |
| `ParsingProofs.StrReparsesWithoutSameRight` | src/cmath/expr.cc:204-220 | The rendering as written, spaces removed, parses back to the tree whenever no binary node has a right operand of its own precedence and every literal is below 10^6. |
| `ParsingProofs.StrReparsesRegrouped` | src/cmath/expr.cc:214-217 | For any formatter that writes 1, 2 and 3 as those digits, the rendering as written, with its spaces removed, turns `1-(2-3)` into a text that parses as `(1-2)-3`. |
| `Ast.OpPrecedence` | src/cmath/expr.cc:223-415 | `=`, `<` and `:=` are at Relation, `+` and `-` at Addition, `*` and `/` at Multiplication, `^` at Power, and no operator at Number. |
| `Ast.OpText` | src/cmath/expr.cc:223-415 | Every operator is written with one or two characters. |
| `Ast.PrecedenceOf` | src/cmath/expr.h:31-43 | Exactly the leaves, negations and factorials have precedence Number. A binary node has its operator's precedence. |
| `Ast.PrecedenceIsStrictTotalOrder` | src/cmath/expr.h:23-29 | Relation < Addition < Multiplication < Power < Number is a strict total order. |
| `Ast.StrLayout` | src/cmath/expr.cc:204-220 | A binary node renders as `L op R` with single spaces, a negation as `-` before its operand and a factorial as `!` after it. An operand is parenthesised exactly when its precedence is strictly lower than the node's. |
| `Ast.StrLosesRightGrouping` | src/cmath/expr.cc:214-217 | As written, `a - (b - c)` and `(a - b) - c` are different trees with the same rendering. |
| `Ast.MakeDefine` | src/cmath/expr.cc:414-419 | A definition node is built exactly when the left operand is a symbol, and it keeps both operands. Otherwise construction fails with the source's message. |
| `Ast.SymbolName` | src/cmath/expr.cc:438-443 | A definition node's name is the symbol on its left. |
| `Ast.StrIsGroupedIff` | src/cmath/expr.cc:204-220 | The rendering as written equals the corrected one exactly when no binary node has a right operand of its own precedence; otherwise it is strictly shorter. |
| `Ast.Str` | src/cmath/expr.cc:31-312 | `str()` of every node as written, with literals passed to the number formatter. Its properties are `Ast.StrLayout`, `Ast.StrIsGroupedIff` and `ParsingProofs.StrReparsesWithoutSameRight`. |
| `Ast.StrGrouped` | src/cmath/expr.cc:204-220 | The corrected rendering, which also parenthesises a right operand of the node's own precedence. Its property is `ParsingProofs.StrGroupedReparses`. |
| `Ast.Compare` | src/cmath/expr.cc:56-436 | `compare` of every node class as written, including the negation case at lines 162-167. Its properties are `Ast.CompareIsSound`, `Ast.CompareReflexiveIff` and `Ast.NegCompareIsFalse`. |
| `Ast.CompareFixed` | src/cmath/expr.cc:162-167 | `compare` with the negation case comparing operand with operand. Its property is `Ast.CompareFixedIsEquality`. |
| `Ast.NegCompareIsFalse` | src/cmath/expr.cc:162-167 | As written, a negation compares equal to nothing, itself included. |
| `Ast.CompareIsSound` | src/cmath/expr.cc:234-239 | When `compare` holds, the two trees are equal and hold no negation and no NaN literal. |
| `Ast.CompareReflexiveIff` | src/cmath/expr.cc:162-167 | As written, a tree compares equal to itself exactly when it holds no negation and no NaN literal. |
| `Ast.CompareFixedIsEquality` | src/cmath/expr.cc:162-167 | With negation comparing operand against operand, `compare` is structural equality on trees without NaN literals. |
| `Numbers.Neg` | src/cmath/expr.cc:154-156 | Negation negates both parts of a complex value and keeps NaN. |
| `Numbers.Add` | src/cmath/expr.cc:226-228 | The sum is NaN exactly when an operand is NaN. |
| `Numbers.Sub` | src/cmath/expr.cc:245-247 | The difference is NaN exactly when an operand is NaN, and it is the sum with the negated right operand. |
| `Numbers.Mul` | src/cmath/expr.cc:264-266 | The product is NaN exactly when an operand is NaN. |
| `Numbers.Div` | src/cmath/expr.cc:283-285 | The quotient is NaN when an operand is NaN or the divisor is zero, and a value only when both operands are values. |
| `Numbers.OrderFree` | src/cmath/expr.cc:226-266 | Sum and product do not depend on operand order, and double negation gives the value back. These identities hold for doubles too. |
| `SymbolTables.JoinLetters` | src/cmath/expr.cc:115-119 | With one-letter parameters, the list has parameter `k` at position `3k`, with `", "` between parameters. |
| `SymbolTables.CustomFunctionText` | src/cmath/expr.cc:111-123 | A user function is written as its name, `(`, the parameters at every third position, `) = `, then the body's rendering. |
| `SymbolTables.DefinitionStr` | src/cmath/expr.cc:31-123 | The text of a binding: a constant's formatted value, `name(x) = native` for a native function, and for a user function its name, parameters and body as `Ast.Str` writes it. Its layout is `SymbolTables.CustomFunctionText`. |
| `SymbolTables.CompareDefinitions` | src/cmath/expr.cc:56-134 | `compare` between bindings: constants by value, functions of the same kind by name. Its property is `SymbolTables.FunctionsCompareByName`. |
| `SymbolTables.FunctionsCompareByName` | src/cmath/expr.cc:129-134 | Two user functions compare equal exactly when their names are equal, whatever their parameters and bodies. |
| `SymbolTables.Scope.Lookup` | src/cmath/expr.cc:465-474 | A name bound in this table resolves to its binding there. A name missing here, with no outer table, resolves to nothing. |
| `SymbolTables.Scope.GetNumber` | src/cmath/expr.cc:476-482 | A name bound to a constant gives the constant's value. A missing or non-constant name gives NaN. |
| `SymbolTables.Scope.Define` | src/cmath/expr.cc:451-463 | A definition rebinds the name in this table only and leaves the outer chain alone. |
| `SymbolTables.LookupFindsInnermost` | src/cmath/expr.cc:465-474 | A lookup returns the binding from the innermost table that holds the name. |
| `SymbolTables.LookupMissingIff` | src/cmath/expr.cc:465-474 | A lookup finds nothing exactly when no table of the chain holds the name. |
| `SymbolTables.DefineShadows` | src/cmath/expr.cc:451-463 | After a definition the name resolves to the new binding, and every other name resolves as before. |
| `SymbolTables.InnerHidesOuter` | src/cmath/expr.cc:465-468 | A binding in a nested table hides any binding of the same name further out. |
| `SymbolTables.SymbolTable.constructor` | src/cmath/expr.cc:446 | A new top-level table is empty and has no outer table. |
| `SymbolTables.SymbolTable.Nested` | src/cmath/expr.cc:448-449 | A new nested table is empty and chained to its outer table. |
| `SymbolTables.SymbolTable.DefineConstant` | src/cmath/expr.cc:451-453 | It creates or overwrites the constant binding in this table only. |
| `SymbolTables.SymbolTable.DefineNativeFunction` | src/cmath/expr.cc:455-457 | It creates or overwrites the native-function binding in this table only. |
| `SymbolTables.SymbolTable.DefineCustomFunction` | src/cmath/expr.cc:459-463 | It creates or overwrites the user-function binding in this table only. |
| `SymbolTables.SymbolTable.LookupSymbol` | src/cmath/expr.cc:465-474 | The object's lookup, recursing through its outer tables, returns what `Scope.Lookup` returns for the chain. |
| `SymbolTables.SymbolTable.GetNumber` | src/cmath/expr.cc:476-482 | The object's `getNumber` returns what `Scope.GetNumber` returns for the chain. |
| `Evaluation.StepsCounts` | src/cmath/expr.cc:319 | The factorial loop runs once for each integer `i >= 1` with `i <= Re(n)`. A NaN operand never enters the loop. |
| `Evaluation.FacCalculate` | src/cmath/expr.cc:314-325 | The loop yields `k!`, where `k` is that number of steps. |
| `Evaluation.FactorialExamples` | src/cmath/expr.cc:314-325 | `0! = 1` and `5! = 120`. An operand below 1 gives 1, a fractional one is cut down, and the imaginary part is ignored. |
| `Evaluation.PowValue` | src/cmath/expr.cc:342-351 | It gives `exp(b)` exactly when the base is the real number `M_E`, and `pow(a, b)` otherwise. |
| `Evaluation.LessValue` | src/cmath/expr.cc:392-400 | The result is the left value exactly when both values are real and the left one is smaller. Otherwise it is the NaN sentinel. |
| `Evaluation.EquValue` | src/cmath/expr.cc:368-375 | The result is the common value exactly when both sides are equal. Otherwise it is the NaN sentinel. |
| `Evaluation.DefineValue` | src/cmath/expr.cc:421-425 | The result is 1 exactly when both sides are equal, and 0 otherwise. |
| `Evaluation.SymbolValue` | src/cmath/expr.cc:178-184 | An unresolved symbol evaluates to 0, and a constant to its value. |
| `Evaluation.Eval` | src/cmath/expr.cc:48-425 | `calculate` of every node, with a depth bound on nested user-function calls. Its properties are `Evaluation.SymbolValue`, `Evaluation.EvalFuelMonotone` and `Evaluation.EvalTotalWithoutCustom`. |
| `Evaluation.Calculate` | src/cmath/expr.cc:73-184 | What a `SymbolExpr` evaluates to through its binding: a constant's value, a native function of the table's `x`, or a user function's body. Its property is `Evaluation.SymbolValue`. |
| `Evaluation.Apply` | src/cmath/expr.cc:226-425 | The operator of each binary node applied to its operands' values. The operator cases are `Numbers.Add` through `Evaluation.DefineValue`. |
| `Evaluation.EvalFuelMonotone` | src/cmath/expr.cc:178-181 | A result reached with some depth of user-function calls stays the same with more. |
| `Evaluation.EvalTotalWithoutCustom` | src/cmath/expr.h:39 | Without user functions in scope, every tree evaluates to a Number. |
| `Evaluation.LessSentinels` | src/cmath/expr.cc:368-400 | `x < x` always gives the sentinel, and `a < b` and `a = b` never both give a value. |
| `Evaluation.EulerShortcut` | src/cmath/expr.cc:342-351 | `e ^ x` with `e` bound to `M_E` gives what the native `exp` gives. |
| `Evaluation.DefineCompares` | src/cmath/expr.cc:421-425 | `name := r` evaluates to 1 exactly when the symbol's current value equals `r`'s, and to 0 otherwise. |
| `Evaluation.BindParamsAt` | src/cmath/expr.cc:101-102 | Exactly the parameters are bound, each to the argument at its last position. |
| `Evaluation.CallBindsParameters` | src/cmath/expr.cc:98-105 | In the call's table, a parameter resolves to its argument and every other name resolves as in the caller's table. |
| `Evaluation.CallExample` | src/cmath/expr.cc:98-109 | `f(x) = x + a` with `a = 10` gives 15 for `f(5)`. |
| `Evaluation.CallCustom` | src/cmath/expr.cc:98-105 | `CustomFunction::call` builds a fresh nested table with one constant per parameter and evaluates the body there. The caller's table is only read. |
| `Evaluation.CallNative` | src/cmath/expr.cc:67-75 | `NativeFunction::call` applies the native function to the first argument. |

## Left out

- Floating point. `Number` holds exact reals, so there is no rounding, infinity or signed zero. IEEE NaN is the single value `NaN`, which equals nothing, not even itself, under `Equal`. Division by an exact zero gives `NaN`.
- `std::pow` and `std::exp`. They are parameters of the model (`Numerics`), so only the branch `PowExpr::calculate` takes between them is modelled. `M_E` is the real literal `2.718281828459045`.
- `std::nan("")`. In `SymbolTable::getNumber` and the comparison sentinels it is the model's `NaN`, not a complex value with one NaN part.
- Number formatting. `NumberExpr::str` goes through `std::stringstream`, which is float-to-text conversion, so the renderings take the number format as a parameter `fmt`. The read-back lemmas assume only that `fmt` writes a whole number below 10^6 as its decimal digits.
- Lexer.NextDigits: the digit run's value is an exact natural number. The source accumulates it in `currentNumber_` with `*= 10` and `+=`, and that member's type is not in the files modelled. A double would round past 2^53 and an integer would overflow, and neither is modelled.
- Lexer.NextNumberText: the token holds `n` exactly for every `n`, for the same reason as `Lexer.NextDigits`.
- StrGroupedIsSpacedText: holds only for trees whose literals are below 10^6, because stream output writes larger whole numbers in exponent form (`1e+06`), which is not the grammar's text.
- StrGroupedReparses: holds only for trees whose literals are below 10^6; a literal of 10^6 or more is written as `1e+06` or similar, which does not read back even with the corrected grouping. `ParsingProofs.StrReparsesWithoutSameRight` has the same bound.
- Floating point in the arithmetic. `Numbers.OrderFree` and the operators' contracts state only what doubles share with exact reals: NaN propagation and operand order. Identities such as `(a + b) - b == a` hold for the model's exact reals but not for doubles, and are not stated.
- The `printf` debug line in `PowExpr::calculate`. It is output only.
- `clone`, `unique_ptr` ownership and `dynamic_cast`. Trees are immutable values, so `clone` is the identity and nodes are told apart by pattern matching.
- `ExprParser::expr`. It is `addExpr` and nothing else, so the parenthesis rule calls the Addition rule directly.
- `ErrorCategory::get`. It is singleton plumbing; `ErrorCategory::name` is the constant `Lexer.CategoryName`.
- Locale and encoding. Letters and digits are ASCII ranges only, and `std::isalpha` and `std::isdigit` under other locales or on UTF-8 input are not modelled.
- `Evaluation.Eval`: it does not model unbounded recursion. It takes a `fuel` bound on nested user-function evaluations and returns `None` when the bound runs out, whereas a self-referring function in the source never returns.
- The `Function` base class and its precedence. `NativeFunction` and `CustomFunction` are bindings (`Definition`), not tree nodes.
- The REPL and console front ends, `src/cmath/real.h` and `real.cc`, and `src/cmath/transform.h`. They are not part of this model: the front ends are I/O, `real` is compiled out, and `transform.h` holds only declarations.
- `SymbolTable::undefine`. It is not part of this model, because no implementation of it is among the files modelled.
- The `Symbol` and `SymbolTable` aliases of `src/cmath/expr.h` and its `char` operator. They belong to an older revision than `expr.cc`. The model uses strings for symbols and the `SymbolTable` class of `expr.cc`.

## Findings

| source | as written | input that shows it | evidently intended | confidence | as-written member | corrected member |
|---|---|---|---|---|---|---|
| src/cmath/expr_parser.cc:20 | The first `nextToken()` runs before the `try`, so an `UnexpectedCharacter` it throws leaves `parse` instead of becoming its result. | `" 1"` (a leading space) | `parse` returns every error as a value | not executed | `Parsing.ParseAsWritten`, `Parsing.LeadingBadCharacterEscapes` | `Parsing.ParseSpec`, `Parsing.ExprParser.Parse` |
| src/cmath/expr.cc:162-167 | `NegExpr::compare` compares the other node itself against this node's operand, so two negations never compare equal. | `-x` compared with `-x` | compare operand with operand, as `FacExpr` does | not executed | `Ast.Compare`, `Ast.NegCompareIsFalse` | `Ast.CompareFixed`, `Ast.CompareFixedIsEquality` |
| src/cmath/expr.cc:214-217 | A right operand of the same precedence is not parenthesised, so the grouping of a left-folding operator is lost. | `1 - (2 - 3)` renders as `1 - 2 - 3`, which reads back as `(1 - 2) - 3` | parenthesise a right operand unless it binds strictly tighter | not executed | `Ast.Str`, `Ast.StrLosesRightGrouping`, `ParsingProofs.StrReparsesRegrouped` | `Ast.StrGrouped`, `ParsingProofs.StrGroupedReparses` |
