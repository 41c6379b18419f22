# Question selector of the Bajaj Finserv Health webhook client

The client is a one-shot Spring Boot start-up task. It registers a user with a
remote grading service and receives a webhook URL and an access token. It then
posts a SQL answer to that webhook. The one piece of logic in it is
`WebhookService.determineQuestion`. This method picks which of two problems the
user must answer from the registration number:

1. every character outside `0`..`9` is removed (`replaceAll("[^0-9]", "")`);
2. with fewer than two digits left, the answer is `"UNKNOWN"`;
3. otherwise the last two digits are parsed with `Integer.parseInt`;
4. an even value gives `"QUESTION_2_EVEN"`, an odd one `"QUESTION_1_ODD"`.

This project models that method and proves what it promises.

- `java_lang.dfy` (module `JavaLang`) models the Java behaviour the method relies on:
  - the 32-bit `int` range;
  - the character class `[0-9]`;
  - `Integer.parseInt` in radix 10, including the `NumberFormatException` it can throw;
  - the truncating `%` operator.
- `webhook_service.dfy` (module `WebhookService`) models `determineQuestion` and states its properties.

`DetermineQuestion` returns a `Result`: either the string the Java method
returns, or the exception it would throw. Its contract proves that it always
returns, so the `NumberFormatException` path of `Integer.parseInt` is never
taken. The parsed value is proved to be `10 * d1 + d2` for the last two digits
`d1`, `d2`. The answer is proved to depend only on the digits of the input, and
among them only on the last two.

## Model

| member | source | states |
|---|---|---|
| `WebhookService.Digits` | src/main/java/com/bajaj/service/WebhookService.java:101 | the filtered string holds only ASCII digits and is no longer than the input |
| `WebhookService.DigitsMembers` | src/main/java/com/bajaj/service/WebhookService.java:101 | a character occurs in the filtered string exactly when it occurs in the input and is in `0`..`9` |
| `WebhookService.DigitsMultiset` | src/main/java/com/bajaj/service/WebhookService.java:101 | each digit occurs in the filtered string as often as in the input; every other character occurs zero times |
| `WebhookService.DigitsAppend` | src/main/java/com/bajaj/service/WebhookService.java:101 | filtering a concatenation is the concatenation of the filtered parts, so the digits keep their original order |
| `WebhookService.DigitsOfDigitString` | src/main/java/com/bajaj/service/WebhookService.java:101 | a string made only of digits is left unchanged, so only non-digits are removed |
| `WebhookService.DigitsOfNonDigitString` | src/main/java/com/bajaj/service/WebhookService.java:101 | a string with no digit filters to the empty string |
| `WebhookService.DigitsIdempotent` | src/main/java/com/bajaj/service/WebhookService.java:101 | filtering twice gives the same string as filtering once |
| `WebhookService.DigitsLength` | src/main/java/com/bajaj/service/WebhookService.java:101-102 | the length of `digits` equals the number of input positions that hold a digit |
| `WebhookService.LastTwoValue` | src/main/java/com/bajaj/service/WebhookService.java:103 | the two-digit value, `10 * d1 + d2` for the last two digits, is at most 99 |
| `WebhookService.ParseLastTwo` | src/main/java/com/bajaj/service/WebhookService.java:103 | parsing `digits.substring(length - 2)` never throws and yields `10 * d1 + d2`, a value in 0..99 |
| `JavaLang.ParseInt` | src/main/java/com/bajaj/service/WebhookService.java:103 | a successful parse is inside the 32-bit `int` range and comes from a non-empty string; a failure is a `NumberFormatException` carrying the input |
| `JavaLang.DecimalValue` | src/main/java/com/bajaj/service/WebhookService.java:103 | a string of `n` decimal digits denotes a number below `10^n` |
| `JavaLang.ParseIntShortUnsigned` | src/main/java/com/bajaj/service/WebhookService.java:103 | an unsigned string of one to nine ASCII digits always parses, to the number it writes |
| `JavaLang.ParseIntRejectsForeign` | src/main/java/com/bajaj/service/WebhookService.java:103 | a string holding a character that is neither a digit nor a sign throws `NumberFormatException` |
| `JavaLang.JavaRem` | src/main/java/com/bajaj/service/WebhookService.java:104 | Java's `%`: the remainder is smaller in magnitude than the divisor and takes the sign of the dividend; for a non-negative dividend and positive divisor it equals the mathematical remainder |
| `JavaLang.DivRemIdentity` | src/main/java/com/bajaj/service/WebhookService.java:104 | Java's division identity `(a / b) * b + a % b == a` holds for the modelled `%` |
| `WebhookService.DetermineQuestion` | src/main/java/com/bajaj/service/WebhookService.java:99-114 | the method never throws, and its answer is one of `"QUESTION_2_EVEN"`, `"QUESTION_1_ODD"`, `"UNKNOWN"` |
| `WebhookService.DetermineQuestionCases` | src/main/java/com/bajaj/service/WebhookService.java:102-113 | fewer than two digits give `"UNKNOWN"`; otherwise an even last-two value gives `"QUESTION_2_EVEN"` and an odd one `"QUESTION_1_ODD"` |
| `WebhookService.UnknownIff` | src/main/java/com/bajaj/service/WebhookService.java:101-113 | the answer is `"UNKNOWN"` if and only if fewer than two input positions hold a digit |
| `WebhookService.EvenIff` | src/main/java/com/bajaj/service/WebhookService.java:102-106 | the answer is `"QUESTION_2_EVEN"` if and only if there are two digits or more and the last-two value is even |
| `WebhookService.EvenIffLastDigit` | src/main/java/com/bajaj/service/WebhookService.java:101-106 | the answer is `"QUESTION_2_EVEN"` if and only if there are two digits or more and the last one is 0, 2, 4, 6 or 8 |
| `WebhookService.OddIff` | src/main/java/com/bajaj/service/WebhookService.java:102-110 | the answer is `"QUESTION_1_ODD"` if and only if there are two digits or more and the last-two value is odd |
| `WebhookService.TensDoNotChangeParity` | src/main/java/com/bajaj/service/WebhookService.java:103-104 | the tens digit does not change the parity of `10 * d1 + d2` |
| `WebhookService.EvenDigit` | src/main/java/com/bajaj/service/WebhookService.java:104 | a digit is even exactly when it is one of 0, 2, 4, 6, 8 |
| `WebhookService.SameDigitsSameQuestion` | src/main/java/com/bajaj/service/WebhookService.java:101-113 | two inputs with the same digit string get the same answer |
| `WebhookService.DetermineQuestionOfDigits` | src/main/java/com/bajaj/service/WebhookService.java:101-113 | classifying the filtered digits gives the same answer as classifying the original input |
| `WebhookService.NonDigitsIgnored` | src/main/java/com/bajaj/service/WebhookService.java:101 | inserting characters without digits anywhere in the input does not change the answer |
| `WebhookService.PrefixIgnored` | src/main/java/com/bajaj/service/WebhookService.java:101-103 | once the input has two digits or more, prepending anything, digits included, does not change the answer |
| `WebhookService.ClassifyDigitString` | src/main/java/com/bajaj/service/WebhookService.java:101-110 | a string of two digits or more is classified by the parity of its last digit |
| `WebhookService.ExampleOdd` | src/main/java/com/bajaj/service/WebhookService.java:99-114 | `"REG12345"` gives `"QUESTION_1_ODD"` (digits `12345`, 45 is odd) |
| `WebhookService.ExampleEven` | src/main/java/com/bajaj/service/WebhookService.java:99-114 | `"AB10"` gives `"QUESTION_2_EVEN"` (digits `10`) |
| `WebhookService.ExampleEvenDigitsOnly` | src/main/java/com/bajaj/service/WebhookService.java:99-114 | `"10"` gives `"QUESTION_2_EVEN"`, the same answer as `"AB10"` |
| `WebhookService.ExampleUnknown` | src/main/java/com/bajaj/service/WebhookService.java:99-114 | `"X"` has no digit and gives `"UNKNOWN"` |

## Left out

- `WebhookService.generateWebhook` and `WebhookService.submitSolution` (src/main/java/com/bajaj/service/WebhookService.java:38-94): blocking HTTP POSTs through Spring `WebClient`. They are network I/O with header setting and exception wrapping, and have no logic of their own.
- `StartupRunner.run` (src/main/java/com/bajaj/runner/StartupRunner.java:36-86): Spring-driven orchestration of the two HTTP calls and the logging around them. Its null checks only decide whether the next network call runs. Its token preview (`substring(0, min(20, len))`) only feeds a log line.
- `WebhookResponse` (src/main/java/com/bajaj/model/WebhookResponse.java:10-13): a generated getter/setter bean with no behaviour.
- Configuration injected with `@Value`: it is not read by `determineQuestion`.
- Every logger call, including the three inside `determineQuestion`: they are side effects with no bearing on the return value.
- A `null` registration number: Java throws `NullPointerException` at line 101. Strings here are never null, so the model takes a plain `string`.
- JavaLang.ParseInt: accepts only ASCII digits, whereas `Character.digit` inside `Integer.parseInt` also accepts other Unicode decimal digits. `determineQuestion` always passes it two ASCII digits, so its answer is unaffected.
- Java strings are UTF-16 sequences, while a Dafny `string` is a sequence of Unicode scalar values. The regular expression `[^0-9]` removes every non-ASCII character either way, so the digit string is the same.
