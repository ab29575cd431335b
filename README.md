# Linear identifier generator of the Xcode project tests

The Xcode project library names every object of a project document by an
opaque identifier, a fixed-width hexadecimal token. In normal use these are
random. The project tests swap in `LinearGuidGenerator`, a deterministic
generator, so that the documents they write can be compared byte for byte
with expected outputs. This generator is a two-operation state machine over
one integer counter:

- `Reset` sets the counter to zero;
- `Generate` increments the counter and returns `"CCCCCCCC00000000"` followed
  by the new counter value in decimal, zero-padded to at least eight digits
  (the .NET `"D8"` format).

The model has two modules:

- `Decimal` (`decimal.dfy`) gives the `"D8"` rendering of a non-negative
  integer (`Pad8`) and the function that reads a digit string back
  (`Value`). Together they show that the rendering is injective, that it is
  exactly eight characters wide below 10^8, and which strings it can produce.
- `LinearGuid` (`linear_guid.dfy`) gives the identifier for a counter value
  (`GuidFor`), a decoder that is its exact inverse (`GuidIndex`), and the
  generator as a class `LinearGuidGenerator` with a `counter` field and
  methods `Reset` and `Generate`. A ghost field `issued` records the
  identifiers returned since the last reset. The invariant `Valid` ties that
  record to `Issued(counter)`, the list `GuidFor(1), ..., GuidFor(counter)`.

`Reset` promises the same final state whatever the state before it, so
calling it twice leaves the same state as calling it once. Both methods
modify only the generator object.

## Model

| member | source | states |
|---|---|---|
| LinearGuid.LinearGuidGenerator.constructor | Xcode.Tests/PBXProjectTests.cs:11 | the counter starts at zero and nothing has been issued |
| LinearGuid.LinearGuidGenerator.Reset | Xcode.Tests/PBXProjectTests.cs:13-16 | afterwards the counter is zero and the record of issued identifiers is empty, whatever the state was before |
| LinearGuid.LinearGuidGenerator.Generate | Xcode.Tests/PBXProjectTests.cs:17-21 | the counter grows by exactly one; the result is `GuidFor` of the new counter, decodes back to it, is appended to the issued record, and differs from every identifier issued since the last reset |
| LinearGuid.Issued | Xcode.Tests/PBXProjectTests.cs:13-20 | the i-th identifier returned after a reset (counting from 0) is `GuidFor(i + 1)` |
| LinearGuid.IssuedDistinct | Xcode.Tests/PBXProjectTests.cs:19-20 | no two identifiers returned between two resets are equal |
| LinearGuid.GuidFor | Xcode.Tests/PBXProjectTests.cs:20 | the identifier for counter value n is the 16-character prefix followed by the `"D8"` rendering of n, so at least 24 characters, and it decodes back to n |
| LinearGuid.GuidForInjective | Xcode.Tests/PBXProjectTests.cs:20 | two counter values give the same identifier if and only if they are equal |
| LinearGuid.GuidIndex | Xcode.Tests/PBXProjectTests.cs:20 | a decoded identifier is at least 24 characters long and starts with the fixed prefix |
| LinearGuid.GuidIndexExact | Xcode.Tests/PBXProjectTests.cs:20 | a string decodes to n if and only if it is the identifier for n |
| LinearGuid.GuidForWidth | Xcode.Tests/PBXProjectTests.cs:20 | an identifier is exactly 24 characters long if and only if the counter is below 10^8, and never shorter |
| LinearGuid.GuidForAlphabet | Xcode.Tests/PBXProjectTests.cs:20 | every character is 'C' or a decimal digit, and below 10^8 the identifier is a 24-character upper-case hexadecimal token |
| LinearGuid.FirstGuid | Xcode.Tests/PBXProjectTests.cs:205 | the first identifier after a reset is `CCCCCCCC0000000000000001` |
| LinearGuid.FifthGuid | Xcode.Tests/PBXProjectTests.cs:206 | the fifth identifier after a reset is `CCCCCCCC0000000000000005` |
| Decimal.Pad8 | Xcode.Tests/PBXProjectTests.cs:20 | the `"D8"` rendering consists of digits, is as long as the longer of eight and the number of significant digits, has no leading zero when longer than eight, and reads back as the rendered number |
| Decimal.Pad8Width | Xcode.Tests/PBXProjectTests.cs:20 | the rendering is exactly eight characters wide if and only if the value is below 10^8, and never narrower |
| Decimal.Pad8Injective | Xcode.Tests/PBXProjectTests.cs:20 | equal renderings come from equal values |
| Decimal.Pad8OfValue | Xcode.Tests/PBXProjectTests.cs:20 | every string of at least eight digits without a leading zero beyond eight is the rendering of the number it denotes |
| Decimal.Digits | Xcode.Tests/PBXProjectTests.cs:20 | the shortest decimal representation: non-empty digits, as many as the value's magnitude requires, with a leading '0' only for zero |
| Decimal.ValueOfDigits | Xcode.Tests/PBXProjectTests.cs:20 | the decimal digits of n read back as n |
| Decimal.ValueLeadingZeros | Xcode.Tests/PBXProjectTests.cs:20 | zero padding on the left does not change the value read back |
| Decimal.ValueInjective | Xcode.Tests/PBXProjectTests.cs:20 | two digit strings of the same length with the same value are equal |

## Left out

- The NUnit test methods and the helpers that read, write and compare project files: they call into the project library, which is not part of this model, and compare against fixture files that are not part of it either.
- Installing the generator into the library (`PBXGUID.SetGuidGenerator`): a call into the project library, which is not part of this model; only the reset half of `ResetGuidGenerator` is modelled.
- LinearGuid.LinearGuidGenerator.Generate: the counter is an unbounded natural number, so the model does not capture the 32-bit wrap-around of the source's `int` after 2^31 - 1 calls, nor the `"-"` sign `"D8"` would then print; the 24-character width is proved only below 10^8.
- The counter is a process-wide static field in the source; the model has one generator object, so sharing between tests running at once is not captured.
