# Calculator scanner and expression tree, in Dafny

A model of `main.cpp` of the calculator: its character scanner and its
expression tree.

- **Scanner** (module `Scan`). The globals `input` (a cursor into the
  NUL-terminated argument string) and `nextToken` become the class
  `Scan.Scanner`. It holds the string as `buffer` (a `seq<char>` ending in
  `'\0'`), the cursor index `pos`, and `nextToken`. `ScanToken` is
  `scanToken()` with the same loops. It reads one token: a maximal run of
  digits, or one of `+ - * / ( )`, or any other character followed by a
  maximal run of ASCII letters and digits. `NextPos` states where the cursor
  ends up. `ScanAll` is the do-while loop in `main`. It returns the
  characters written as `nextToken`, and `Tokens` specifies them.
- **Expression tree** (module `Ast`). The `TreeNode` subclasses `Add`, `Sub`,
  `Mul`, `Div`, `Negate`, `Integer` and `Identifier` become the variants of
  `datatype Expr`. `eval()` becomes `Eval` on 32-bit `int`, and `print()`
  becomes `Print`, which returns the text that would be written. As in the
  source, a compound node prints the *values* of its children, not their
  renderings: `(1+2)+3` prints as `(3+3)`.
- **Support.** `CInt` holds the C++ `int` range and its `/`, which truncates
  toward zero. `IntText` holds the decimal text `std::cout` writes for an
  `int`, with a reader that inverts it. `Chars` holds the character classes
  and the maximal runs the scanner skips.

Undefined behaviour in the source becomes a precondition. `Ast.Defined(e)`
holds when evaluating `e` divides by no zero and no node's result overflows
`int`. `Eval` requires it. `Print` requires it only of the children, because
`print()` evaluates the children and never the node itself.

`main.cpp` has no parser, no floating-point evaluation, no factorial or
power, and no token-length limit, though the repository's broader design
describes all of these. The model follows `main.cpp`.

## Model

| member | source | states |
|---|---|---|
| `Chars.DigitRunEnd` | main.cpp:112-114 | the digit loop stops at the end of the maximal run of digits: every character skipped is a digit and the one it stops on is not |
| `Chars.AlnumRunEnd` | main.cpp:126-127 | the identifier loop's condition skips exactly the maximal run of ASCII letters and digits |
| `Scan.NextPos` | main.cpp:108-129 | where `scanToken()` leaves the cursor: past exactly the maximal digit run when it starts on a digit; one step on `+ - * / ( )`; otherwise past the first character and the maximal letter/digit run after it. It always stays inside the string and strictly advances from any non-NUL character |
| `Scan.Scanner.constructor` | main.cpp:104-106 | the cursor starts at the first character of the string and `nextToken` starts as the zero character |
| `Scan.Scanner.ScanToken` | main.cpp:108-129 | `nextToken` becomes the character under the cursor read before any advance, and the cursor moves to `NextPos` of its old position |
| `Scan.Tokens` | main.cpp:137-140 | the characters `main` writes: at least one and at most as many as the string has characters from the cursor on, beginning with the character under the cursor, ending with the NUL, and with no NUL before it |
| `Scan.ScanAll` | main.cpp:136-140 | the scan loop terminates after at most as many `scanToken()` calls as the string has characters, terminator included; it writes exactly `Tokens(s, 0)`, whose last character is the NUL |
| `CInt.Quot` | main.cpp:55 | C++ `int` division: the remainder `a - q*b` is smaller than the divisor in magnitude and is zero or has the dividend's sign |
| `CInt.QuotUnique` | main.cpp:55 | that remainder condition admits exactly one quotient, so `Quot` is C++'s truncating division and nothing else |
| `Ast.Eval` | main.cpp:15-98 | `eval()` of a node without undefined behaviour is a 32-bit `int` |
| `Ast.DivIsTruncating` | main.cpp:54-56 | `Div.eval()` has a nonzero right value `b`, and its result `q` leaves remainder `a - q*b` with magnitude below `|b|`, either zero or with the sign of the left value `a` |
| `Ast.DivOverflow` | main.cpp:54-56 | `INT_MIN / -1` overflows, so a `Div` node computing it has no defined value |
| `Ast.NegateTwice` | main.cpp:66-68 | `Negate(Negate(e))` is defined exactly when `e` is defined and its value is not `INT_MIN`, and then it evaluates to `e`'s value |
| `Ast.Print` | main.cpp:18-101 | `print()` of a binary node or `Negate` is a parenthesised text, of an `Integer` a well-formed decimal, and of an `Identifier` its name `str` |
| `Ast.ReadPrintBinary` | main.cpp:18-59 | the text of an `Add`, `Sub`, `Mul` or `Div` node holds exactly the left child's value, the operator and the right child's value, and reads back to them |
| `Ast.ReadBinaryText` | main.cpp:19 | `"(" + decimal(a) + op + decimal(b) + ")"` reads back to `a`, `op` and `b` for every operator `+ - * /` |
| `Ast.PrintShowsOnlyValues` | main.cpp:18-59 | two binary nodes print the same text if and only if they have the same operator and their children have the same values, whatever the subtrees below |
| `Ast.ReadPrintNegate` | main.cpp:69-71 | the text of a `Negate` node is `(-` then its operand's value then `)`, and reads back to that value |
| `Ast.ReadPrintInteger` | main.cpp:81-83 | an `Integer` node prints the decimal text of its `val`, which reads back to `val` |
| `Ast.PrintNestedAdd` | main.cpp:18-20 | the tree `(1+2)+3` prints as `(3+3)`: the children's values, not their renderings |
| `IntText.Digits` | main.cpp:82 | the digits of a natural number are nonempty, all decimal digits and without a leading zero, and start with `0` exactly for zero |
| `IntText.Format` | main.cpp:82 | `std::cout << v` writes a well-formed decimal that starts with `-` exactly when `v` is negative |
| `IntText.Parse` | main.cpp:82 | the reader accepts exactly the texts that `Format` can produce |
| `IntText.ParseFormat` | main.cpp:82 | reading the text written for `v` gives back `v` |
| `IntText.FormatParse` | main.cpp:82 | every text the reader accepts is the text written for its value, so `Format` and `Parse` are mutually inverse |

## Left out

- `Scan.Scanner.ScanToken`: on the string's terminator the source enters the identifier do-while, moves the cursor past the NUL and reads beyond the string. That is undefined behaviour, and `main` does it on its last call every run. The model sets `nextToken` to the NUL and leaves the cursor on it. A NUL inside the buffer before the end is scanned like any other character, as in the source.
- The argument-count check in `main` and all output to `std::cout`. `ScanAll` returns the characters written as `nextToken`, without the separating spaces. `Print` returns its text instead of writing it.
- Signed overflow in `+`, `-`, `*`, unary `-` and `INT_MIN / -1`, and division by zero, are undefined behaviour in C++. The model does not give them a value: `Ast.Defined` excludes them, and `Eval` requires it.
- `LeftParenthesis` is abstract, so no node of it can exist. The global `resultTree` is never used.
- The `#include <regex>` is unused.
- Raw-pointer ownership is not modelled: the datatype replaces the pointers, and nothing is freed.
- `Identifier::str` is a `const char*`; the model takes it as a string and does not model a null pointer.
