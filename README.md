# C versus Go language-feature demos, modelled in Dafny

The repository compares C and Go through short demonstration functions, plus a separate
small C program about XNOR. This project models the parts of those demos whose behaviour
can be stated. Each part is in its own module:

- `BinaryXnor` (`binary_xnor.dfy`) models `b.c`. It covers `xnor`, the count-down loop that
  prints `result` as 32 binary digits starting with the most significant bit, and the two
  lines that `main` writes. `xnor` is documented as a bitwise XNOR, but its body returns
  the scalar comparison `a == b`, which is 1 or 0. The model follows the body (`Xnor`).
  The per-bit operation the comment describes is modelled separately (`BitwiseXnor`). A
  lemma relates the two: `xnor` returns 1 exactly when the bitwise XNOR has all 32 bits set.
- `CExamples` (`c_examples.dfy`) models `c_examples.c`:
  - `increment1` and `increment2`, and the `cPassByValue` sequence that calls them;
  - the store through `p` in `cPointers`;
  - designated initialisers for `struct Employee`, where members left out are zeroed;
  - `stayOnStackC` and `escapeToHeapC`;
  - the anonymous `enum`.
- `GoExamples` (`go_examples.dfy`) models `go_examples.go`:
  - the two increments, with Go's defined wrap-around on overflow;
  - `goPointers`;
  - zero values, and keyed composite literals, where a field named twice is a compile error;
  - `stayOnStack` and `escapeToHeap`;
  - the `iota` constant block.
- `Ints`, `Decimal` and `Wrappers` are shared building blocks:
  - `Ints`: fixed-width integer types and powers of two;
  - `Decimal`: `%d` formatting and its parser;
  - `Wrappers`: `Option`.

A C or Go variable whose address is taken (`&count`, `&a`, `&u`) becomes an object of a
class. A pointer is a reference to that object. `increment2` is therefore a method with
`modifies inc`. `increment1` has no `modifies` clause, so Dafny's frame rule guarantees
that it cannot change anything the caller holds. `PassByValue` then proves the printed
sequence 10, 10, 11.

Modelling choices for the shift, integer widths and the heap:

- `(result >> i) & 1` is modelled as `(x / 2^i) % 2`, using Euclidean division.
- For a non-negative `x`, this is exactly what section 6.5.7 of ISO/IEC 9899:2011 defines.
- For a negative `x` the C standard leaves `>>` implementation-defined. The model takes
  the arithmetic shift that GCC and Clang use. Bit i (for i < 32) comes out the same under
  a logical shift.
- C `int` is modelled as 32 bits and Go `int` as 64 bits.
- C signed overflow is undefined, so the C increments require the value to be below
  `INT_MAX`. Go overflow wraps around.
- `malloc` is a constructor that promises nothing about the contents of the storage.
  The two `strcpy` calls are assignments.

## Model

| member | source | states |
|---|---|---|
| `BinaryXnor.Xnor` | b.c:4-6 | the result of `xnor` is always 0 or 1 |
| `BinaryXnor.XnorIsEquality` | b.c:4-6 | `xnor(a, b)` is 1 exactly when `a == b` and 0 exactly when `a != b`: a scalar comparison, not the bitwise XNOR in the comment |
| `BinaryXnor.XnorCommutative` | b.c:5 | `xnor(a, b) == xnor(b, a)` |
| `BinaryXnor.XnorReflexive` | b.c:5 | `xnor(a, a) == 1` for every `a` |
| `BinaryXnor.Bit` | b.c:15 | each `(result >> i) & 1` is 0 or 1 |
| `BinaryXnor.BitCharIsDecimal` | b.c:15 | printing a bit with `%d` writes the single character '0' or '1' |
| `BinaryXnor.RenderBinary` | b.c:14-16 | the loop emits the rendering (`BinaryString`): exactly 32 characters, all '0' or '1', which read back as unsigned binary give `result` mod 2^32 |
| `BinaryXnor.BinaryStringAt` | b.c:14-15 | character k of the rendering is bit 31 - k of the value, so it is '0' or '1' |
| `BinaryXnor.BinaryStringIsBinary` | b.c:15 | every character of the rendering is '0' or '1' |
| `BinaryXnor.BinaryStringRoundTrip` | b.c:14-16 | reading the 32 digits back, most significant first, gives the value mod 2^32 |
| `BinaryXnor.DecodeThenRender` | b.c:14-16 | every 32-digit binary string is the rendering of the number it denotes (the other direction of the round trip) |
| `BinaryXnor.SmallBinaryString` | b.c:14-16 | a value of 0 or 1 renders as 31 zeros followed by that digit |
| `BinaryXnor.Demo` | b.c:9-17 | for any operands, line 1 is `XNOR of <a> and <b> is: <d>` and line 2 is 31 zeros then `d`, where `d` is '1' exactly when the operands are equal |
| `BinaryXnor.RunProgram` | b.c:8-19 | with a = b = 10 the output is `XNOR of 10 and 10 is: 1` and `Binary representation of result: 00000000000000000000000000000001` |
| `BinaryXnor.BitwiseXnor` | b.c:3 | the corrected operation: for every i < 32, bit i of the result is 1 exactly where bit i of `a` and bit i of `b` agree |
| `BinaryXnor.BitwiseXnorAllOnes` | b.c:3 | the corrected operation returns -1 (all ones) exactly when `a == b` |
| `BinaryXnor.BitwiseXnorExamples` | b.c:3 | corrected results: 10 and 5 give -16; 0 and -1 give 0 |
| `BinaryXnor.BinaryStringNegPow2` | b.c:14-16 | -2^n (n ≤ 32) renders as 32 - n ones followed by n zeros |
| `BinaryXnor.BitwiseXnorRenderings` | b.c:3-16 | the loop would print the corrected results as 28 ones then `0000` (10 and 5) and as 32 ones (10 and 10) |
| `BinaryXnor.XnorDetectsAllOnes` | b.c:3-6 | `xnor` returns 1 exactly when the bitwise XNOR of the same operands is all ones |
| `BinaryXnor.XnorDiffersOnShippedInput` | b.c:3-11 | on the shipped inputs 10 and 10, `xnor` gives 1 where the bitwise XNOR gives -1 |
| `Decimal.FormatInt` | b.c:12 | `%d` text is non-empty and starts with '-' exactly for negative values |
| `Decimal.FormatIntRoundTrip` | b.c:12 | parsing the `%d` text of x gives back x |
| `CExamples.Increment2` | c_examples.c:104-106 | the pointee goes up by exactly 1; `modifies inc` means nothing else changes |
| `CExamples.PassByValue` | c_examples.c:100-116 | `count` is seen as 10, 10 after `increment1` (it changes only its own copy), then 11 after `increment2` |
| `CExamples.Pointers` | c_examples.c:91-94 | after `p = &a; *p = 20`, both `a` and `*p` are 20 |
| `CExamples.Store` | c_examples.c:56-57 | one designated initialiser sets its own member to its value and leaves every other member as it was |
| `CExamples.UndesignatedMemberIsZero` | c_examples.c:57 | a member that no designated initialiser names is zero (ID 0, empty strings) |
| `CExamples.LastDesignatorWins` | c_examples.c:56-57 | a member takes the value of the last initialiser that names it |
| `CExamples.StructExamples` | c_examples.c:56-57 | `emp1` is (102, "Bob", "Sales"); `emp2` is (0, "Charlie", "") |
| `CExamples.EscapeToHeapC` | c_examples.c:129-134 | a fresh heap object holding "Bill" and "bill@email.com" |
| `CExamples.ManualMemory` | c_examples.c:124-141 | `stayOnStackC()` and `*escapeToHeapC()` hold the same name "Bill" and email "bill@email.com" |
| `CExamples.EnumValuesFrom` | c_examples.c:160-166 | an enumerator with `=` takes that value; one without takes the previous value plus 1 |
| `CExamples.EnumValues` | c_examples.c:160-166 | a first enumerator without `=` is 0 |
| `CExamples.AnonymousEnumValues` | c_examples.c:160-166 | A=0, B=1, C=2, D=4, E=5 |
| `GoExamples.WrapInt64` | go_examples.go:115 | Go integer arithmetic: the result equals the exact value modulo 2^64, and is the exact value when it fits |
| `GoExamples.Increment2` | go_examples.go:114-116 | the pointee goes up by exactly 1, wrapping from the largest `int` to the smallest; nothing else changes |
| `GoExamples.PassByValue` | go_examples.go:100-112 | `count` is seen as 10, 10 after `increment1`, then 11 after `increment2` |
| `GoExamples.Pointers` | go_examples.go:93-96 | after `p = &a; *p = 20`, both `a` and `*p` are 20 |
| `GoExamples.ZeroValues` | go_examples.go:31-39 | unassigned `int`, `string` and `*int` variables hold 0, "" and nil |
| `GoExamples.CompositeLiteral` | go_examples.go:52-61 | a keyed literal is rejected exactly when it names a field twice; otherwise named fields hold their values and other fields hold their types' zero values |
| `GoExamples.StructExamples` | go_examples.go:60-61 | `emp1` is {102 Bob Sales}; `emp2` is {0 Charlie ""} |
| `GoExamples.EscapeToHeap` | go_examples.go:137-140 | a fresh variable, outliving the call, holding "Bill" and "bill@email.com" |
| `GoExamples.EscapeAnalysis` | go_examples.go:119-140 | `stayOnStack()` and `*escapeToHeap()` are field-wise equal |
| `GoExamples.ValuesFrom` | go_examples.go:159-165 | every spec is the expression in force at it (its own; else the nearest earlier one; else `previous`) evaluated at its own iota |
| `GoExamples.ConstBlock` | go_examples.go:159-165 | the block is rejected exactly when its first spec has no expression; otherwise it gives one value per spec |
| `GoExamples.ConstBlockValues` | go_examples.go:159-165 | each constant is the nearest preceding explicit expression, evaluated with iota equal to its own index |
| `GoExamples.IotaBlockValues` | go_examples.go:159-165 | A=0, B=1, C=2, D=12, E=16 (E repeats `iota << 2` with iota 4) |

## Left out

- `CExamples.Increment1`, `GoExamples.Increment1`: these members have no contract of their own. The promise that the caller's `count` is unchanged comes from the missing `modifies` clause, and is proved where they are called, in `PassByValue`.
- `CExamples.Increment1`, `CExamples.Increment2`: both require the value to be below `INT_MAX`. `inc++` on `INT_MAX` is signed overflow, which C leaves undefined, so there is no result to model.
- `sizeof` and `unsafe.Sizeof`, and struct padding (`cWordSize`, `cPadding`, `goWordSize`, `goPadding`): the sizes depend on the platform ABI, not on the code.
- The reads of uninitialised variables in `cZeroValue`: undefined behaviour in C, with no value to model.
- `p++` and printing addresses in `cPointers`: they move past the object and print machine addresses.
- Everything floating point:
  - `cCasting` and `goConversion`;
  - the `Salary` member or field of both `Employee` structs;
  - the constants `UF`, `TF`, `uf` and `tf`.
- `free`, and the byte-by-byte copying done by `strcpy`: the heap struct is one fresh object, and each copy is one assignment.
- The 50-byte capacity of the `char[50]` members is not modelled. A longer string is not rejected.
- `CExamples.EnumValuesFrom`: enumerator values are unbounded integers; the rule that each must fit in an `int` is not checked.
- `GoExamples.CompositeLiteral`: each keyed element is typed by its field, so unknown fields and ill-typed values cannot be written and are not modelled as errors.
- `GoExamples.ConstBlock`: covers only the expression forms the block uses: `iota`, integer literals, and a left shift by a constant count.
- Go's `int` is taken to be 64 bits. On 32-bit targets it is 32 bits.
- Output formatting other than `b.c`'s two lines:
  - `%v`, `%+v`, `%T` and `%q`, and the print order of maps;
  - the `printf` and `fmt` printouts of `cBuiltinTypes`, `goBuiltinTypes`, `cAssigning`, `goAssigning`, `cConstants`, `goConstants`, `cEnum` and `goIota` (the values behind the last two are modelled).
- The `main` functions of `c_examples.c` and `go_examples.go`: they only call the demos in sequence.
- Standard output itself: the output lines are returned as strings.

## Findings

| source | as written | input that shows it | evidently intended | confidence | as-written member | corrected member |
|---|---|---|---|---|---|---|
| b.c:3-6 | `xnor`, commented as a correct bitwise XNOR, returns `a==b`: 1 or 0 | a = b = 10, the program's own inputs: `xnor` gives 1, but a bitwise XNOR sets all 32 bits, giving -1 | each result bit is 1 exactly where the operands' bits agree | high; not executed | `BinaryXnor.XnorDiffersOnShippedInput` | `BinaryXnor.BitwiseXnor` |

`Demo` and `RunProgram` still use `Xnor` as written, because they model the output the
program actually prints. `BitwiseXnor` is the corrected operation. Its per-bit property is
its own contract, `BitwiseXnorAllOnes` and `BitwiseXnorRenderings` follow from it, and
`XnorDetectsAllOnes` ties it to `Xnor`.
