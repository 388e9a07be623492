# Snuffleupagus: a verified model

Snuffleupagus is a PHP extension that hardens a server by rules: it encrypts cookies, switches functions
off under configured conditions, guards ini settings and cleans server variables. This project models the
parts of it whose correctness depends on arithmetic or on a long chain of steps, and proves what they
compute.

- **Cryptography** (`Bits`, `Digits`, `Field25519`, `Pack25519`, `X25519`, `Curve25519`, `Poly1305`, `TagLaws`,
  `Salsa20`, `Stream`, `StreamLaws`, `Secretbox`, `GroupOrder`, `CookieCrypt`). The bundled TweetNaCl works on limbs
  and bytes, with lazy carries, masks in place of branches, and outputs that may overlap inputs. The methods work on
  arrays at offsets, as the C code does, and every store is checked against the width of its type: the limbs of a
  field element are 64-bit signed, and the accumulator of Poly1305 fits in 32 bits. `u32` of the source is `unsigned
  long`; where it matters, the width is a parameter `w` that is 32 or 64, and the results do not depend on it. The
  specifications are sections 2.5 of RFC 8439 and 5 of RFC 7748, the group order of section 5.1 of RFC 8032, and
  sections 3 to 10 of the Salsa20 specification, written over unbounded integers. `Curve25519`, `TagLaws` and
  `StreamLaws` say what these functions compute without their own terms: chords and tangents of the curve, a closed
  sum, and the layout of what is hashed.
- **The configuration language** (`Condition`, `ConditionGrammar`, `ConfigScanner`, `ScriptBlocks`, `RuleText`,
  `RuleSyntax`). Conditions are evaluated by a machine with an operand and an operator state and two bounded stacks.
  `Condition` is that machine over any algebra of results: over syntax trees it is a parser, over integers it is the
  evaluator, and the two are related token by token; `ConditionGrammar` is the language in layers, with the values
  of C. `ConfigScanner` is the scanner with its arrays and counters. `RuleText` is the printer of rules, the
  patterns that the scanner reads them back with, and the unescaping in place.
- **Paths and lists** (`LinkedList`, `VarTokens`, `VarParser`, `VarGrammar`, `VarMachine`, `VarFold`,
  `LateIndices`). The linked list is relinked in place by an insertion sort. Tokens are collected one delimiter
  after the other, sorted, and folded into a chain of accesses, whose indices are paths themselves. `VarParser` is
  that fold on unlimited numbers, `VarMachine` the one that keeps the position of an index in an `int`, as the code
  does, and `VarFold` the code. `LateIndices` shows where they part. `VarGrammar` reads a path without tokens, in
  one pass, and is shown to be the same.
- **Rules and hooks** (`CallChain`, `RuleIndex`, `Hooks`, `IniGuards`, `Directives`, `OptionLaws`, `Reload`). Rules
  are indexed by the innermost function of their chain. Functions are wrapped by up to three tables of hooks. A load
  undoes the last one, reads its directives one by one into the tables that are there, and hooks functions and
  settings; any number of loads may follow one another.
- **Server variables** (`ServerVariables`). The percent encoder and the stripper of dangerous characters.

Randomness, base64, regular expressions, the engine's function table and the files are parameters: a nonce,
the decoded bytes, predicates, a map, and the directives of a configuration. `Wrappers` holds the one type that
stands for a value that may be missing.

## Findings

- `RuleText.PrintScan`: a rule that is printed does not always scan back. A string argument that holds a
  byte above 127, which only a variable of `@set` can bring in, is refused (`RuleText.NonAsciiVariable`);
  and an argument that ends in a backslash runs on into the next string argument if that one begins with a
  parenthesis (`RuleText.DanglingBackslash`). These are the only cases.
- `VarParser.Tiling`, `VarParser.LostIndex`: an index that is not a path is dropped in silence, and the path
  is accepted without it. A path without quotes loses text exactly when some text between its brackets, at
  any depth, is not a path itself.
- `VarGrammar.LateQuote`: text before a quote is taken into the string, and its first character is lost.
- `VarGrammar.QuotedIndex`: an arrow in a quoted index is refused when the path does not begin with a dollar sign,
  although other delimiters in quotes are not looked at.
- `VarMachine.CodeIff`, `LateIndices.LateIndex`: the position where an index begins is kept in an `int`. An accepted
  path is computed as it should be exactly when no index in it begins beyond INT_MAX; beyond, the code takes
  the bracket for a part of the name, or another text for the index.
- `VarTokens.TwoBrackets`: the comparison of tokens truncates a difference of positions to `int`. It fails
  first for delimiters that are INT_MAX + 1 apart.
- `CookieCrypt.LengthIsExact`: the length of a decrypted cookie wraps around for a box of an empty message.
  `encrypt_zval` makes none, because it always boxes a terminator.
- `Hooks.ForwardRestoresInstalled`: the shutdown unhooks in hooking order. The original handlers are restored
  exactly when no internal function is reached from two of the internal wrappers, the rules and the blacklist;
  `Reload.RandWrappedTwice` is a configuration of two directives for which they are not. A reload restores
  them always.
- `Reload.Extension.LoadAll`, `Reload.ValuesPersist`: the handlers of ini settings are restored by a reload;
  the value of a setting is that of the last load that set it, even if later loads do not.
- `Hooks.CallRuns`: a call comes to the original handler only if no wrapper ends it. Those of `setcookie` and of
  the two libxml functions always do.
- `Directives.ReadAgain`: without the reset in between, a configuration would be refused when it is read again,
  exactly when it gives anything that may be given once.
- `ServerVariables.Variables.ServerStrip`: a variable is stripped in place, and so is every variable that shares
  its buffer (`ServerVariables.StripsShared`).
- `CallChain.InnermostMayDiffer`: the chain walk alone does not require the called function to end the
  chain. The index does (`RuleIndex.ChainedRule`).
- `Condition.DeadBranches`: the errors "not enough input" and "invalid condition" cannot be reported.

## Model

| member | source | states |
|---|---|---|
| Field25519.Car25519 | src/tweetnacl.c:284-294 | For limbs below 2^62 in size, no step overflows 64 bits, and the limbs become the carried ones |
| Field25519.CarriedFe | src/tweetnacl.c:284-294 | Carrying keeps the value modulo 2^255-19, for all limbs |
| Field25519.TwoPasses | src/tweetnacl.c:372-373 | Two carries bring every product of bounded factors back to limbs that may be factors again |
| Field25519.A | src/tweetnacl.c:353-357 | The sum modulo 2^255-19, in limbs that `M` takes, also when the output is an input |
| Field25519.Z | src/tweetnacl.c:359-363 | The difference modulo 2^255-19, in limbs that `M` takes, also when the output is an input |
| Field25519.Product | src/tweetnacl.c:368-370 | The double loop gives 31 limbs whose value is exactly the product of the two values, without overflow |
| Field25519.FoldProduct | src/tweetnacl.c:371 | Folding the upper fifteen limbs in, times 38, keeps the value modulo 2^255-19 |
| Field25519.M | src/tweetnacl.c:365-374 | The product modulo 2^255-19, for limbs up to 2^26 in size, also when the output is one of the inputs; the result is a valid input again |
| Field25519.S | src/tweetnacl.c:376-379 | The square modulo 2^255-19, in place or not |
| Field25519.Inv25519 | src/tweetnacl.c:381-391 | The power with exponent 2^255-21 |
| Field25519.Pow2523 | src/tweetnacl.c:393-403 | The power with exponent 2^252-3 |
| Pack25519.Sel25519 | src/tweetnacl.c:296-304 | Masked exchange: the two vectors are swapped when the bit is 1, and kept when it is 0 |
| Pack25519.ThreePasses | src/tweetnacl.c:310-313 | Three carries suffice: sixteen limbs of 16 bits, for every vector the field operations produce |
| Pack25519.DifferenceInt | src/tweetnacl.c:315-322 | The borrow chain subtracts the prime exactly, and its last borrow is set exactly when the value was below the prime |
| Pack25519.SubtractP | src/tweetnacl.c:314-324 | One round of subtraction and selection: the prime is subtracted exactly when the value is at least the prime |
| Pack25519.Canonical | src/tweetnacl.c:314-324 | Two conditional subtractions bring every 256-bit value to its residue in [0, 2^255-19) |
| Pack25519.Pack25519 | src/tweetnacl.c:306-329 | The 32 bytes, little-endian, of the unique residue in [0, 2^255-19); the input is unchanged, and so are all other bytes |
| Pack25519.Unpack25519 | src/tweetnacl.c:346-351 | The limbs hold the little-endian value of the 32 bytes modulo 2^255 |
| X25519.CswapTwice | src/tweetnacl.c:421-442 | Two conditional exchanges are one with the exclusive or of the bits |
| X25519.UnconditionalSwaps | src/tweetnacl.c:419-443 | Swapping and swapping back in every round gives the ladder of RFC 7748, which defers its swaps, at every bit |
| X25519.BitOfScalar | src/tweetnacl.c:420-420 | The byte and shift pick exactly bit t of the 256-bit scalar |
| X25519.Step | src/tweetnacl.c:423-440 | One round in limbs computes the ladder formulas of RFC 7748 in the field, and leaves limbs that every operation takes in the next round |
| X25519.LadderLoop | src/tweetnacl.c:419-443 | All 255 rounds: the state is that of the specified ladder, with every limb in range throughout |
| X25519.ClampScalar | src/tweetnacl.c:410-412 | The scalar is clamped as section 5 of RFC 7748 decodes it |
| X25519.Climb | src/tweetnacl.c:414-449 | From the point to the two coordinates of the result, left in the halves of the work array |
| X25519.Quotient | src/tweetnacl.c:450-452 | The packed product of x2 with the power 2^255-21 of z2, computed in place in the work array |
| X25519.CryptoScalarmult | src/tweetnacl.c:405-454 | The X25519 function of section 5 of RFC 7748, for every scalar and every point, canonical or not; the output may be any of the inputs |
| Curve25519.PrimeIs | src/tweetnacl.c:315-320 | The modulus is 2^255-19 |
| Curve25519.FormulasRound | src/tweetnacl.c:423-440 | One round, for all inputs, modulo 2^255-19: the first pair becomes (x^2 - z^2)^2 and 4xz(x^2 + 486662xz + z^2), the second 4(x2 x3 - z2 z3)^2 and 4 x1 (x3 z2 - x2 z3)^2 |
| Curve25519.Doubles | src/tweetnacl.c:423-438 | The first pair by these polynomials with 4c + 2 in place of 486662, for every constant c in place of 121665 and every modulus |
| Curve25519.Adds | src/tweetnacl.c:423-440 | The second pair by these polynomials, for every constant and every modulus |
| Curve25519.RoundDoubles | src/tweetnacl.c:423-440 | On the curve y^2 = x^3 + ax^2 + x over every modulus: when the first pair stands for a point, after the polynomials of a round it stands for the point where the tangent leads |
| Curve25519.RoundAdds | src/tweetnacl.c:423-440 | When the two pairs stand for points of the curve and the fixed coordinate for their difference, the second then stands for their sum by the chord |
| Curve25519.RoundsPair | src/tweetnacl.c:419-443 | After the bits down to t, the two pairs are those of m and m + 1 for the number m of these bits, where a bit leads from m to 2m or 2m + 1; for every scalar with bit 254 set |
| Curve25519.ClimbsMultiples | src/tweetnacl.c:419-443 | For a point whose multiples are met by chords and tangents: the pairs of m stand for the m-th multiple and the next one |
| Curve25519.Clamped | src/tweetnacl.c:410-412 | Clamping keeps bits 3 to 253 of the scalar, clears those below and sets bit 254 |
| Curve25519.FunctionClimbs | src/tweetnacl.c:405-454 | The result is x / z for the first pair at the clamped scalar |
| Poly1305.AccumulateIsPolynomial | src/tweetnacl.c:210-235 | The block by block accumulator is the sum of the padded blocks times the powers of r, modulo 2^130-5 |
| Poly1305.Add1305 | src/tweetnacl.c:182-190 | The seventeen limbs of the sum, modulo 2^136, carried |
| Poly1305.RowValue | src/tweetnacl.c:218 | The factor 320 folds a row of the product correctly: its value is congruent to r shifted, modulo 2^130-5 |
| Poly1305.Multiply | src/tweetnacl.c:216-219 | Every limb of the product is the folded convolution and fits in 32 bits |
| Poly1305.Squeeze | src/tweetnacl.c:221-234 | Two carry passes keep the value modulo 2^130-5 and leave bytes, with a top limb of at most 4 |
| Poly1305.AbsorbBlock | src/tweetnacl.c:212-234 | One block: the value becomes (h + block) times r modulo 2^130-5, and h stays squeezed |
| Poly1305.AbsorbAll | src/tweetnacl.c:210-235 | All blocks of a message of any length, the last one shorter |
| Poly1305.LoadKey | src/tweetnacl.c:200-208 | r is the clamped first half of the key, and the accumulator starts at 0 |
| Poly1305.SelectLimbs | src/tweetnacl.c:239-240 | The mask takes all limbs from one of the two vectors, for either width |
| Poly1305.Freeze | src/tweetnacl.c:237-240 | One masked subtraction gives the residue in [0, 2^130-5), in canonical limbs |
| Poly1305.AddKey | src/tweetnacl.c:242-245 | The second half of the key is added, modulo 2^128 in the bytes that are written |
| Poly1305.CryptoOnetimeauth | src/tweetnacl.c:196-247 | The tag of section 2.5 of RFC 8439 for every message and key, in either width, also when it is written over the key |
| TagLaws.QIs | src/tweetnacl.c:192-194 | The modulus is 2^130-5 |
| TagLaws.ClampIsMask | src/tweetnacl.c:200-208 | Clamping byte by byte is the mask 0ffffffc0ffffffc0ffffffc0fffffff on the number |
| TagLaws.TagInClosedForm | src/tweetnacl.c:196-247 | For every message and key: the sum of all blocks, each with a one beyond its last byte, times the powers of the masked key half, modulo 2^130-5, plus the other half, in sixteen bytes |
| Salsa20.RotateLo | src/tweetnacl.c:35-35 | In either width of the type, the low 32 bits of a rotated word are the 32-bit rotation of its low bits |
| Salsa20.Ld32IsValue | src/tweetnacl.c:37-43 | Four bytes are loaded as their little-endian value |
| Salsa20.St32 | src/tweetnacl.c:52-56 | The four little-endian bytes of the low 32 bits, whatever the upper bits are |
| Salsa20.QuarterRound | src/tweetnacl.c:99-102 | On words with any upper bits, the low bits become the quarterround of the low bits |
| Salsa20.IterateTwice | src/tweetnacl.c:97-105 | Two transposing iterations are one columnround and one rowround, for any quarterround |
| Salsa20.TwentyIterations | src/tweetnacl.c:96-106 | Twenty iterations are ten doublerounds |
| Salsa20.Iteration | src/tweetnacl.c:97-105 | One pass of the loop refines one iteration on the low bits of the words |
| Salsa20.Rounds | src/tweetnacl.c:96-106 | The loop refines ten doublerounds, in either width |
| Salsa20.AddThenSubtract | src/tweetnacl.c:109-113 | Adding the input and taking the constants and the input off again leaves the words that HSalsa20 needs |
| Salsa20.CoreSalsa20 | src/tweetnacl.c:82-126 | The Salsa20 hash of key, input and constants |
| Salsa20.CoreHsalsa20 | src/tweetnacl.c:82-132 | HSalsa20: eight words of the rounds without the final sum |
| StreamLaws.FirstQuarter | src/tweetnacl.c:99-102 | The value of the quarterround on (1, 0, 0, 0) in section 3 of the Salsa20 specification |
| StreamLaws.SecondQuarter | src/tweetnacl.c:99-102 | The value on (0, 1, 0, 0) |
| StreamLaws.ThirdQuarter | src/tweetnacl.c:99-102 | The value on (0, 0, 1, 0) |
| StreamLaws.FourthQuarter | src/tweetnacl.c:99-102 | The value on (0, 0, 0, 1) |
| StreamLaws.RowLaw | src/tweetnacl.c:97-105 | Row i of a rowround is the quarterround of row i, both begun at place i, for any quarterround |
| StreamLaws.ColumnLaw | src/tweetnacl.c:97-105 | A columnround is a rowround of the transposed state |
| StreamLaws.BlockHashes | src/tweetnacl.c:87-92 | The block is the hash of constants, key halves and input in the order of section 9 |
| StreamLaws.DerivedFromBlock | src/tweetnacl.c:108-117 | HSalsa20 can be read off the ordinary block: its words on the diagonal less the constants, and those in the place of the input less the input |
| Stream.Incremented | src/tweetnacl.c:146-151 | Carrying 1 through eight bytes gives the bytes of the counter plus 1, modulo 2^64 |
| Stream.Increment | src/tweetnacl.c:146-151 | The loop adds 1 to the counter and leaves the nonce |
| Stream.NextBlock | src/tweetnacl.c:144-144 | The block for the counter is the key stream at the current position |
| Stream.CryptoStreamSalsa20Xor | src/tweetnacl.c:136-161 | For every length, byte i is the message xor byte i % 64 of block i / 64; a null message counts as zeros; the message may be overwritten in place |
| Stream.DeriveKey | src/tweetnacl.c:177-178 | The key of XSalsa20 for the first half of the nonce |
| Stream.CryptoStreamXor | src/tweetnacl.c:168-180 | XSalsa20, for every length, with the message present or null |
| StreamLaws.SigmaText | src/tweetnacl.c:134-134 | The constants are the text of section 9 |
| StreamLaws.StreamHashes | src/tweetnacl.c:136-161 | Byte j of block i is that of the hash of constants, key, nonce and the little-endian i |
| StreamLaws.PrefixSelectsKey | src/tweetnacl.c:175-180 | The first sixteen bytes of a nonce select one key, whatever follows them, and it comes from the block of Salsa20 for them; the stream is that of Salsa20 for the other eight |
| StreamLaws.KeyIsUnique | src/tweetnacl.c:175-180 | That block determines the key |
| Stream.XoredTwice | src/tweetnacl.c:136-161 | Wherever the bytes are those of an encryption, encrypting them again gives the message |
| Secretbox.CryptoVerify16 | src/tweetnacl.c:64-75 | 0 when the sixteen bytes are equal and -1 otherwise, for either width of the difference |
| Secretbox.CryptoOnetimeauthVerify | src/tweetnacl.c:249-254 | 0 exactly when the tag is that of the message |
| Secretbox.Seal | src/tweetnacl.c:261-262 | The tag is that of the cipher text under the key it is written over; the cipher text stays |
| Secretbox.CryptoSecretbox | src/tweetnacl.c:256-264 | The box, in place or not; -1 and no change below 32 bytes |
| Secretbox.CryptoSecretboxOpen | src/tweetnacl.c:266-276 | Opens a box exactly when its tag is right and it has 32 bytes; otherwise the output is unchanged |
| Secretbox.UnboxBox | src/tweetnacl.c:256-276 | A box opens exactly when both sides take the same one-time key, and gives the message with 32 zeros in front |
| Secretbox.PaddedRoundTrip | src/tweetnacl.c:256-276 | A message that starts with 32 zeros always comes back whole |
| CookieCrypt.EncryptZval | src/sp_crypt.c:137-180 | The bytes before base64: the nonce, then the box of 32 zeros, the data and a terminator |
| CookieCrypt.DecryptZval | src/sp_crypt.c:39-130 | The outcome for any input: kept, removed or replaced, with 64-bit arithmetic on the lengths |
| CookieCrypt.Outcomes | src/sp_crypt.c:39-130 | A cookie is replaced exactly when it carries, behind nonce and padding, the tag of all that follows under the first bytes of its stream; any other is removed, or kept as it is in simulation; what is not base64 is removed |
| CookieCrypt.TooLong | src/sp_crypt.c:73-91 | A length that leaves 64 bits together with the padding counts as a broken cookie |
| CookieCrypt.ReplacedBy | src/sp_crypt.c:117-119 | Every byte of the new value is that behind the tag, exclusive or with its byte of the stream |
| CookieCrypt.EncryptedBytes | src/sp_crypt.c:137-180 | The bytes sent: nonce, sixteen zeros, the tag, then data and terminator, each exclusive or with its byte of the stream |
| CookieCrypt.PackedRoundTrip | src/sp_crypt.c:39-180 | What is packed and boxed for any key stream is unpacked with exactly its length |
| CookieCrypt.RoundTrip | src/sp_crypt.c:39-180 | For every string, nonce and key, decryption gives back the bytes that were encrypted |
| CookieCrypt.LengthIsExact | src/sp_crypt.c:117-119 | For everything that opens, the length is that of the message exactly when the input does not have 56 bytes |
| CookieCrypt.EmptyBox | src/sp_crypt.c:117-119 | A box of nothing: the length wraps around |
| GroupOrder.OrderBytes | src/tweetnacl.c:686-686 | The table of bytes is the order of section 5.1 of RFC 8032 |
| GroupOrder.OrderIs | src/tweetnacl.c:686-686 | The order is 2^252 + 27742317777372353535851937790883648493 |
| GroupOrder.RoundValue | src/tweetnacl.c:692-700 | Removing one upper limb keeps the value modulo the order |
| GroupOrder.CarryDies | src/tweetnacl.c:692-700 | The carry of a round ends inside the window, so that the limb above it stays small |
| GroupOrder.NextStage | src/tweetnacl.c:692-700 | The bounds of all limbs before a round are kept for the next one |
| GroupOrder.RemoveUpperLimbs | src/tweetnacl.c:691-700 | From limbs below 2^21 in size, 32 small ones are left with the same value modulo the order, and nothing overflows |
| GroupOrder.Estimate | src/tweetnacl.c:701-706 | The quotient taken from the top limb is off by less than one multiple |
| GroupOrder.CorrectedIsResidue | src/tweetnacl.c:701-711 | Two subtractions, the second with the last carry as factor, give the bytes of the residue |
| GroupOrder.ModL | src/tweetnacl.c:688-712 | For limbs below 2^21 in size, the 32 bytes of the unique residue in [0, L) |
| GroupOrder.Reduce | src/tweetnacl.c:714-720 | A 64-byte number is replaced by the 32 bytes of its residue |
| Condition.DeadBranches | src/sp_config_scanner.re:142-149 | On any token sequence, the machine neither runs short of operands nor ends with more than one result |
| Condition.StepDisciplined | src/sp_config_scanner.re:256-309 | Every step keeps as many results as pending infix operators, plus one in operator state |
| Condition.Collapse | src/sp_config_scanner.re:288-296 | Reducing folds back exactly the operators and results that an expression has left pending |
| Condition.RunExpr | src/sp_config_scanner.re:254-309 | After the text of an expression, the stacks hold exactly its pending parts over what was there, or there was no room |
| Condition.ParsesGrammar | src/sp_config_scanner.re:95-149 | The machine accepts exactly the expressions of the grammar that fit its stacks, with this precedence and associativity, and gives the syntax tree; what does not fit is too complex |
| Condition.Unambiguous | src/sp_config_scanner.re:106-126 | Two expressions with the same text are the same |
| Condition.EvaluatesTree | src/sp_config_scanner.re:128-149 | Evaluating on the stacks gives the recursive value of the syntax tree, or the same error |
| Condition.ConditionMeaning | src/sp_config_scanner.re:254-318 | A condition has a value exactly when it is the text of an expression that fits and has that value |
| ConditionGrammar.Layers | src/sp_config_scanner.re:106-126 | The accepted expressions are those of the grammar in layers, without precedences: equalities of disjunctions of conjunctions of comparisons of negations, each to the left, over operands and parentheses |
| ConditionGrammar.EvalIsMeaning | src/sp_config_scanner.re:128-140 | The value of an expression is the one that C gives it |
| ConditionGrammar.ConditionInC | src/sp_config_scanner.re:254-318 | A condition has a value exactly when it is the text of an equality of that grammar that fits, and it is the value in C |
| ConditionGrammar.ComparisonLaws | src/sp_config_scanner.re:128-140 | The comparisons are negations and converses of each other, exactly one of <, == and > holds, and 0 < n for n > 0 |
| ConditionGrammar.ConnectiveLaws | src/sp_config_scanner.re:128-140 | De Morgan's laws, the constants, and negation as a comparison with 0 |
| ConditionGrammar.HundredParentheses | src/sp_config_scanner.re:96-103 | An operand in n parentheses has its value for n up to 100, and is too complex beyond |
| ConfigScanner.Scanner.ApplyOperator | src/sp_config_scanner.re:142-149 | On the arrays, the top operator is applied as in the machine |
| ConfigScanner.Scanner.ReduceAbove | src/sp_config_scanner.re:288-296 | The loop of an infix operator reduces as in the machine |
| ConfigScanner.Scanner.CloseParenthesis | src/sp_config_scanner.re:300-309 | A closing parenthesis reduces to its partner, and fails without one |
| ConfigScanner.Scanner.FinishCondition | src/sp_config_scanner.re:310-317 | The semicolon reduces all, and leaves the value at the bottom |
| ConfigScanner.Scanner.ScanToken | src/sp_config_scanner.re:254-309 | Every action refines one step of the machine, within the arrays |
| ConfigScanner.Scanner.ScanCondition | src/sp_config_scanner.re:224-318 | The value of the condition is left in the first result, with no operator left, or the error of the machine is reported |
| ConfigScanner.Scanner.ScanRule | src/sp_config_scanner.re:320-369 | A rule is passed on whole exactly when the condition holds; the keyword buffer does not overflow |
| ConfigScanner.Scanner.ScanScript | src/sp_config_scanner.re:209-369 | A file is accepted exactly when all its directives are well placed; the rules passed on are those whose nearest condition before them holds or is ended |
| ScriptBlocks.BlocksApply | src/sp_config_scanner.re:209-369 | Of a file of blocks, the rules in force are those without a condition and those under a condition that C takes for true, in order |
| ScriptBlocks.ConditionPlaced | src/sp_config_scanner.re:224-233 | A condition is accepted exactly when none is open and it is an expression that fits |
| ScriptBlocks.SixteenKeywords | src/sp_config_scanner.re:324-327 | A rule may have sixteen keywords |
| RuleText.LengthExact | src/sp_config_scanner.re:44-55 | The computed length is that of the text exactly when no argument has an unknown type |
| RuleText.ComputeLength | src/sp_config_scanner.re:44-55 | The loop computes that length |
| RuleText.TextualRepresentation | src/sp_config_scanner.re:42-89 | The buffer is filled exactly with the text of the rule |
| RuleSyntax.WrittenRule | src/sp_config_scanner.re:60-88 | How a rule with each kind of argument is written, for all names and texts |
| RuleSyntax.WordCharacters | src/sp_config_scanner.re:205-205 | The characters of keywords |
| RuleText.CompactOne | src/sp_config_scanner.re:24-35 | A step writes one byte and keeps what is not read yet |
| RuleText.CompactInPlace | src/sp_config_scanner.re:15-40 | Compacting in place gives the unescaped argument |
| RuleText.UnescapeEscape | src/sp_config_scanner.re:15-40 | Unescaping inverts escaping, for every text |
| RuleSyntax.Unescaped | src/sp_config_scanner.re:25-31 | A backslash is struck out, and the character behind it stays, whatever it is |
| RuleSyntax.UnescapedEnd | src/sp_config_scanner.re:25-37 | Text without a backslash stays whole; one at the end keeps the terminating NUL |
| RuleText.EscapedArgument | src/sp_config_scanner.re:15-40 | Every text without control characters can be given as an argument, by escaping it |
| RuleText.BodyIsClean | src/sp_config_scanner.re:206-206 | The pattern of a string matches exactly the texts without control characters in which every quote follows a backslash |
| RuleText.ScannedIsWellFormed | src/sp_config_scanner.re:320-360 | Every rule that is scanned, from any text, has names and strings as the patterns say and fits the buffer |
| RuleText.ItemReadBack | src/sp_config_scanner.re:322-360 | A printed keyword by itself is read back exactly when it is ASCII |
| RuleText.FirstItem | src/sp_config_scanner.re:320-371 | In front of more text, it is read back exactly when no longer match runs into that text |
| RuleText.KeywordRoundTrips | src/sp_config_scanner.re:320-371 | A rule is read back exactly when its first keyword and the rest are |
| RuleText.PrintScan | src/sp_config_scanner.re:42-371 | Printing and scanning give the same rule exactly when it is printable: ASCII arguments, and none ending in a backslash before a next string argument that begins with a parenthesis |
| RuleText.ScannedRoundTrip | src/sp_config_scanner.re:42-371 | The same for every rule that the scanner builds from any text and any variables |
| RuleText.LinesScan | src/sp_config_scanner.re:320-371 | Every well formed ASCII rule that fits the buffer is scanned from some text: one keyword on a line |
| RuleText.DanglingBackslash | src/sp_config_scanner.re:42-371 | A text whose rule, printed, is not read back |
| RuleText.NonAsciiVariable | src/sp_config_scanner.re:337-354 | Another one, whose argument is a variable that is not ASCII |
| LinkedList.SortList | src/sp_list.c:26-53 | The nodes are relinked, none is allocated or lost, and the list is acyclic and in insertion order of the comparison |
| LinkedList.Link | src/sp_list.c:37-50 | One node is linked in at its place |
| LinkedList.SortIsStable | src/sp_list.c:26-53 | For every preorder, the result is a sorted permutation in which equal elements keep their order |
| LinkedList.DataSort | src/sp_list.c:26-53 | Sorting nodes by their data sorts the data |
| LinkedList.Append | src/sp_list.c:55-70 | The list with one node more at its end |
| LinkedList.Prepend | src/sp_list.c:72-77 | The list with one node more at its front |
| VarTokens.ParseStrTokens | src/sp_var_parser.c:3-21 | All occurrences of one delimiter that do not overlap are appended in order |
| VarTokens.Disjoint | src/sp_var_parser.c:257-265 | No two delimiters match at the same place |
| VarTokens.LexLocated | src/sp_var_parser.c:257-265 | One pass over the line gives tokens that lie in the line one behind the other |
| VarTokens.CompareAgrees | src/sp_var_parser.c:103-107 | The comparison, truncated to int, orders positions that are at most INT_MAX apart correctly |
| VarTokens.TruncatedIs | src/sp_var_parser.c:103-107 | An `int` has 32 bits, and keeps the low ones |
| VarTokens.TokensInOrder | src/sp_var_parser.c:257-265 | If no two delimiters are more than INT_MAX apart, collecting delimiter by delimiter and sorting gives the tokens of one pass from left to right: each once, in increasing position |
| VarTokens.TwoBrackets | src/sp_var_parser.c:103-107 | A line with two brackets, of any length, is sorted right exactly when their distance modulo 2^32 is below 2^31 |
| VarTokens.SortedTokens | src/sp_var_parser.c:257-265 | The linked list of tokens is that sequence, under the same condition on the line |
| VarParser.AdvanceInBounds | src/sp_var_parser.c:176-245 | With positions that are not truncated, they are in order after every token: no difference of them is negative, and every substring lies in the line |
| VarParser.CompleteIff | src/sp_var_parser.c:43-101 | The chain of an accepted path without quotes has lost no index, anywhere, exactly when every text between brackets in the line is a path itself, and so on inside |
| VarParser.Tiling | src/sp_var_parser.c:176-274 | An accepted path without quotes can be written back from its chain exactly when every text between its brackets is a path itself, and so on inside; otherwise the chain is shorter |
| VarParser.EmptyPath | src/sp_var_parser.c:247-274 | The empty path is accepted |
| VarParser.LostIndex | src/sp_var_parser.c:43-101 | A path whose index is lost |
| VarGrammar.ReadIsParse | src/sp_var_parser.c:126-274 | Every line, with quotes or without, is parsed as a reader reads it that has neither tokens nor states, but takes each part, each quoted text and the text of each index as a whole: the same lines are refused, and the others give the same chain |
| VarGrammar.QuotedPath | src/sp_var_parser.c:196-204 | Text in quotes is one string, whatever delimiters it holds, as long as that quote is not among them |
| VarGrammar.QuotedIndex | src/sp_var_parser.c:156-164 | Quoted text between brackets is the index, whatever it holds; but an arrow in it is refused exactly when the path does not begin with a dollar sign |
| VarGrammar.LateQuote | src/sp_var_parser.c:196-204 | Text before a quote becomes part of the string, with the quote, but without its first character |
| VarGrammar.Spelled | src/sp_var_parser.c:126-274 | Every accepted path, with quotes or without, is spelled by its chain part by part, where the text between brackets is one that gives the index |
| VarMachine.CodeTokens | src/sp_var_parser.c:176-245 | With truncated positions too, whenever no length goes below zero and the count of brackets stays in `int`, every substring taken lies in the line and the positions stay in order |
| VarMachine.CodeAgrees | src/sp_var_parser.c:176-274 | As long as no index in the line begins beyond INT_MAX, and no more than INT_MAX brackets are open, the code with its `int` variables accepts and computes what is specified; the texts of the indices then meet the condition by themselves |
| VarMachine.CodeIff | src/sp_var_parser.c:176-245 | For a line that is accepted by specification, exactly then |
| VarMachine.ShortLines | src/sp_var_parser.c:247-274 | Lines of up to INT_MAX characters always meet the condition |
| LateIndices.LateIndex | src/sp_var_parser.c:202-222 | For every name of INT_MAX to 2^32 - 1 letters, the path `name[b]` is specified, and the code refuses it |
| LateIndices.LateName | src/sp_var_parser.c:202-222 | There is such a name, of 2^31 letters |
| VarFold.IsNextTokenEmpty | src/sp_var_parser.c:109-117 | Whether something other than the next token follows, within the line |
| VarFold.IsTokenValid | src/sp_var_parser.c:119-174 | The decision on a token, in every state that parsing can reach |
| VarFold.FoldToken | src/sp_var_parser.c:184-227 | One turn of the loop on the code's variables, with the position truncated to `int`, and an outcome of its own where the arithmetic leaves its range |
| VarFold.FoldTokens | src/sp_var_parser.c:176-245 | The loop over the linked list of tokens |
| VarFold.PartText | src/sp_var_parser.c:212-219 | The subtractions give the length from the part to the truncated position, to the bracket, or to the token; it may be negative |
| VarFold.CreateVar | src/sp_var_parser.c:43-101 | An access is appended, its index parsed; an index that is refused is lost |
| VarFold.SpParseVar | src/sp_var_parser.c:247-274 | Terminates on every line whose delimiters are at most INT_MAX apart, and gives the outcome of the code's own arithmetic |
| CallChain.ParseFunctionsList | src/sp_config_utils.c:4-22 | The pieces between separators that are not empty, in reverse; nothing without a separator |
| CallChain.PiecesOfJoin | src/sp_config_utils.c:4-22 | Names joined by the separator are split into the same names |
| CallChain.WalkFindsSubsequence | src/sp_disabled_functions.c:39-68 | The greedy walk succeeds exactly when the chain is a subsequence of the names from the current frame to the first unnamed one, with a frame left behind them |
| CallChain.Executor.IsFunctionsListMatching | src/sp_disabled_functions.c:39-68 | The loop over the linked frames decides this, and restores the current frame on every path |
| CallChain.InnermostMayDiffer | src/sp_disabled_functions.c:39-68 | A stack whose innermost function is not in the chain, and matches |
| RuleIndex.ShouldDisable | src/sp_disabled_functions.c:286-391 | The loop over a bucket gives the verdict and the log of the recursive scan |
| RuleIndex.FirstDecides | src/sp_disabled_functions.c:286-391 | The first matching allow or real drop decides, and the log holds the matching rules before it |
| RuleIndex.IndexRefinesScan | src/sp_disabled_functions.c:249-284 | For any rules and any call, the lookup gives the verdict and the log of a scan of the whole configuration in order |
| RuleIndex.RuleTables.AddRule | src/sp_config_keywords.c:302-322 | One rule more keeps the index exact |
| RuleIndex.ChainedRule | src/sp_disabled_functions.c:299-314 | Behind the index, a chained rule matches when the rest of its chain is found among the callers |
| RuleIndex.PlainDirective | src/sp_config_keywords.c:428-459 | A single directive about a name decides the calls of this function, of `echo` for `print`, that meet its conditions, and no other: it lets them pass, drops them, or only logs them |
| RuleIndex.ChainDirective | src/sp_config_utils.c:4-22 | A single directive about a chain decides the calls of its last function, when the others are found among the callers in this order |
| RuleIndex.Builtins | src/sp_disabled_functions.c:242-248 | The language constructs that are looked up like hooked functions |
| RuleIndex.MovedAndKept | src/sp_disabled_functions.c:524-537 | Every bucket is in exactly one of the two tables |
| RuleIndex.HookedLookup | src/sp_disabled_functions.c:249-284 | After the move, every function is decided as before: a hooked one or a builtin by the one table, any other by the other |
| RuleIndex.MovedLookup | src/sp_disabled_functions.c:249-284 | Wherever the buckets have moved, a call is decided and logged as by a scan of all rules in order, and the two tables together index the rules |
| Hooks.HookOneLayer | src/sp_utils.c:475-495 | Hooking keeps the layer: the table holds the handlers below it, and exactly the functions in it are wrapped |
| Hooks.HookAllLayer | src/sp_utils.c:475-523 | So does any sequence of hooks, with repetitions and variants |
| Hooks.CoverBoth | src/sp_utils.c:475-523 | In whatever order functions are hooked with one handler, the layer is that of the set of functions reached; hooking succeeds exactly for an internal function |
| Hooks.ReachIs | src/sp_utils.c:504-519 | A function and its multibyte variant are reached together, from the variant without multibyte support and from the function with it |
| Hooks.UnhookLayer | src/sp_utils.c:539-551 | Unhooking takes a layer off exactly |
| Hooks.InstallLayers | src/sp_disabled_functions.c:571-594 | A load leaves internal wrappers, then disabled functions, then the blacklist, over the original handlers |
| Hooks.InstallKeys | src/sp_disabled_functions.c:571-594 | Each table holds exactly the internal functions that the configuration reaches in it |
| Hooks.CallRuns | src/sp_disabled_functions.c:492-503 | A call runs the wrappers of its function, at most one of each kind, from the blacklist inwards, up to the first that ends it; it comes to an original handler exactly when none drops it, does its work by other means, or is one of the three replacements that never continue |
| Hooks.ForwardRestores | src/snuffleupagus.c:163-172 | Unhooking in hooking order restores the handlers exactly when no function is in two tables |
| Hooks.ForwardRestoresInstalled | src/snuffleupagus.c:163-172 | The same condition on the configuration: no internal function is reached from two of its parts |
| IniGuards.UnguardRestores | src/sp_ini.c:148-192 | Every setting has its own handler back, whether it was guarded or not |
| IniGuards.GuardedIff | src/sp_ini.c:148-177 | Which settings are guarded, and which value each has, read off the rules and the policy |
| Directives.TakenIff | src/sp_config.c:116-119 | From any options, a configuration is taken exactly when no directive is refused by itself, gives anything twice that may be given once, lacks an option that it needs, or brings the two exclusive ini policies together |
| Directives.ReadAgain | src/snuffleupagus.c:186-196 | Without a reset, a configuration that was taken is refused when it is read again, exactly when it gives anything that may be given once |
| OptionLaws.FeatureIs | src/sp_config_keywords.c:19-31 | A feature is on exactly when the last directive about it says so |
| OptionLaws.SwitchesAre | src/sp_config_keywords.c:495-529 | The protection of settings and its policy are those of the last directives that say; wrappers are looked after when any directive asks for it |
| OptionLaws.TablesAre | src/sp_config_keywords.c:182-197 | The blacklist and the rules about settings are exactly those that are given |
| OptionLaws.RegexpRulesAre | src/sp_config_keywords.c:446-459 | The rules by regular expression are those that are given, in configuration order |
| OptionLaws.ReplacedFunctions | src/snuffleupagus.c:692-772 | Which functions are replaced, feature by feature |
| OptionLaws.RuledFunctions | src/sp_disabled_functions.c:571-581 | The functions hooked because of rules are those that some directive is about, by name, as the last of a chain, or by a regular expression that matches |
| OptionLaws.ListedFunctions | src/sp_disabled_functions.c:583-591 | The functions hooked because of the blacklist are those in the directive that gives it |
| Reload.Extension.HookFunctionOnce | src/sp_utils.c:475-495 | The function and the table after hooking, for every state of both, and when it succeeds |
| Reload.Extension.HookFunction | src/sp_utils.c:497-523 | The same with the multibyte variant, whose success does not count |
| Reload.Extension.UnhookFunctions | src/sp_utils.c:539-551 | Every function in the table gets its handler back |
| Reload.Extension.HookBucket | src/sp_disabled_functions.c:528-535 | One bucket: its function is hooked, and the bucket moves when that succeeds or it is a builtin |
| Reload.Extension.HookBuckets | src/sp_disabled_functions.c:524-537 | The buckets of internal functions and of builtins move whole, although both tables change during the walk, and the functions of all buckets are covered |
| Reload.Extension.HookRegexp | src/sp_utils.c:525-537 | Every function of the table that a regular expression matches is covered, in whatever order |
| Reload.Extension.HookRules | src/sp_disabled_functions.c:571-581 | The rules about calls and about results, by name and by regular expression, together cover exactly the functions they are about |
| Reload.Extension.HookIni | src/sp_ini.c:148-177 | Guards are set and values preset, where the own handler takes them |
| Reload.Extension.UnhookIni | src/sp_ini.c:179-192 | Guards are taken off, where they still are |
| Reload.Extension.StoreDirective | src/sp_config_keywords.c:446-459 | One directive is stored in the tables and options that are there, or is refused, as after its predecessors on a fresh process |
| Reload.Extension.StoreDirectives | src/sp_config.c:33-80 | Starting from empty tables, a configuration is read up to the first directive that is refused; after success the tables index exactly its rules, in configuration order |
| Reload.Extension.FreeConfig | src/snuffleupagus.c:196-277 | The four tables are empty, and all options are back to their defaults |
| Reload.Extension.StartHooks | src/snuffleupagus.c:692-772 | The layers, the moved buckets and the guards that the configuration asks for |
| Reload.Extension.Reset | src/snuffleupagus.c:640-652 | After any loads, everything is as on a fresh process, except the values of settings |
| Reload.Extension.Load | src/snuffleupagus.c:632-772 | One load leaves the options, the rule tables, the layers, and the handler, the saved handler and the value of every setting as a first load does, whatever was loaded before but for values that are not set; when it fails, no rule and no hook is left |
| Reload.Extension.LoadAll | src/snuffleupagus.c:632-772 | After any sequence of loads only the last one counts, except that the value of a setting is that of the last load that set it, or the one before all loads |
| Reload.ValuesPersist | src/sp_ini.c:148-192 | Two loads after which a value is not that of the second one alone |
| Reload.Extension.CallsAreScanned | src/sp_disabled_functions.c:249-284 | After any loads, the last of which started hooks, a call is decided and logged as by a scan of the last configuration's rules in order |
| Reload.Extension.FailConfig | src/snuffleupagus.c:617-630 | No rule of any file is left in any table, and the configuration is invalid |
| Reload.Extension.Shutdown | src/snuffleupagus.c:163-172 | All handlers are restored exactly when the tables were disjoint; all guards are taken off |
| Reload.RandWrappedTwice | src/snuffleupagus.c:163-172 | A configuration after which they are not |
| ServerVariables.EncodedLength | src/sp_ifilter.c:51-56 | The counting pass predicts the length of the encoded text |
| ServerVariables.Characters | src/sp_ifilter.c:5-25 | The seven dangerous characters, the one that replaces them, and the digits that encode them |
| ServerVariables.Treated | src/sp_ifilter.c:80-94 | The variables that are encoded, and those that are stripped |
| ServerVariables.EncodedIsClean | src/sp_ifilter.c:5-71 | No dangerous character is left |
| ServerVariables.EncodeTwice | src/sp_ifilter.c:42-71 | Encoding again changes nothing |
| ServerVariables.DecodeEncoded | src/sp_ifilter.c:42-71 | For every text, stray percent signs included, decoding by section 2.1 of RFC 3986 gives the same before and after encoding |
| ServerVariables.StripTwice | src/sp_ifilter.c:27-40 | Stripping again changes nothing, and what is left is clean |
| ServerVariables.EncodedCopy | src/sp_ifilter.c:56-67 | The two advancing positions fill the new buffer exactly |
| ServerVariables.Variables.ServerEncode | src/sp_ifilter.c:42-71 | Only this variable changes, and only if it is a text that is not clean; it then has a new buffer |
| ServerVariables.Variables.ServerStrip | src/sp_ifilter.c:27-40 | Exactly the variables that have this one's buffer are stripped; it is the only one that changes exactly when no other has its buffer or nothing in it is dangerous |
| ServerVariables.StripsShared | src/sp_ifilter.c:27-40 | A variable that is stripped because of its buffer alone |
| ServerVariables.Variables.Register | src/sp_ifilter.c:73-96 | The exact text of every variable for each combination of the two options: encoded, stripped for itself or for its buffer, or kept |

## Left out

- CookieCrypt.RoundTrip: the nonce is a parameter, the key is given as its 32 bytes (the SHA-256 over the configured key and the client's environment is not modelled), and base64 is taken to be undone by its decoder.
- Curve25519.ClimbsMultiples: for points whose multiples are met by the chords and tangents of the climb; that these make a group, and that the power computed by `inv25519` is the inverse (Fermat), is not proved.
- Stream.CryptoStreamSalsa20Xor: an output in the array of the message must be at the same offset, and must not be in the array of the key; other partial overlaps are not modelled.
- GroupOrder.ModL: the bound on the limbs is what the two callers produce; Ed25519 itself and SHA-512 are not modelled.
- Condition.ConditionMeaning: begins with tokens. The lexing of conditions, and the lookup of their variables, functions and versions, come before it: an operand carries its value.
- ConfigScanner.Scanner.ScanScript: begins with directives, and takes the rule parser as a predicate on keyword lists; `@set`, `@log`, `@info` and `@error` are not modelled.
- RuleText.ScannedRoundTrip: values of variables are taken to be string bodies, as the pattern of `@set` makes them.
- VarTokens.SortedTokens: lines with two delimiters more than INT_MAX apart are left out; `VarTokens.TwoBrackets` shows that their tokens may come out of order. The same holds of `VarFold.SpParseVar` and the methods it calls.
- VarMachine.CodeIff: what follows once a length has gone below zero or the count of brackets has left `int` is not modelled; it is the outcome `Beyond`.
- VarFold.SpParseVar: the two regular expressions on names are one predicate on names. The tree is a chain of accesses, each with an optional index chain; its linked nodes, and the overwriting of `token->type`, are modelled on values.
- RuleIndex.ShouldDisable: the conditions of a rule on file, line, address, parameters and variables are one predicate, and so are regular expressions on function names. `should_drop_on_ret` is the same scan with other conditions.
- Reload.Extension.HookBuckets: the order in which a hash table is walked is arbitrary in the model.
- Reload.Extension.Load: begins with the directives of all files, after scanning and globbing; a directive that its own parser refuses by itself is `Refused`, and the effect of one that stores nothing modelled is `Inert`; what may be given once is kept for every option. Hooks that are not undone (the executor, the compiler, the session module, stream wrappers, `zend_write`) are not modelled.
- ServerVariables.Variables.ServerEncode: the counter of extra bytes is not bounded by the width of `int`.
- The acceptance of `disable_function` rules and the merging of cookie rules in the rule parsers: exclusions of one option by another.
- `sp_match_array_value`, `sp_match_array_key`, `sp_ini_check`, CIDR prefixes and HMAC keys: short functions that add only easy members.
- `array_handler` in src/sp_sloppy.c, which swaps handlers outside the hook tables.
- Logging, request dumps, upload validation, sessions, file permissions and the configuration dump: input and output.
