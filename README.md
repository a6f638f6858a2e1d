# snailMail: locating a sender from an email address

This project models `get_location_from_email` in `api/claude.py` of snailMail.
The rule guesses where a sender lives from their email address. It tries four
tiers in order:

1. It takes the domain with `email.split("@")[1]`. An address without `@`
   raises `IndexError`.
2. It looks the domain up in the table of known mail providers
   (`EXACT_DOMAINS`).
3. It tries the suffixes of `DOMAIN_SUFFIXES` in insertion order. The first
   suffix the domain ends with gives the location.
4. It asks a language model. A non-empty answer is returned. If the call
   raises or the answer is empty, it returns one entry of `RANDOM_FALLBACKS`,
   drawn at random.

Files:

- `wrappers.dfy`: `Option`, and `Result`, whose error stands for Python's
  `IndexError`.
- `pystr.dfy`: the Python string operations the rule uses. These are
  `str.split` on a one-character separator, with `sep.join` as its proved
  inverse in both directions, and `str.endswith` as a plain suffix test.
- `claude.dfy`: the three tables, the rule as `GetLocationFromEmail`, and one
  lemma per tier.

Two parts of the rule are not deterministic, so they are parameters:

- `ask: string -> Option<string>` is the language model. `ask(domain)` is the
  already-stripped text that `ask_claude` returns for the prompt built from
  `domain`. `None` means the call raised an exception. The prompt depends only
  on the domain, so a function of the domain covers every prompt.
- `pick: nat` is the random draw. The rule returns
  `RANDOM_FALLBACKS[pick % 10]`. The lemmas prove that the result is always in
  the list and that every entry can be drawn.

The lemmas state their assumptions on the address as `SplitsAs(email, local,
domain, rest)`. This means the address is `local@domain` followed by nothing
or by a further `@...`. `DomainIsSecondField` and `DomainDecomposition` prove
that this describes exactly what `split("@")[1]` returns.

The distance and delivery-time calculator is outside this model, which covers
only the location rule of `api/claude.py`.

## Model

| member | source | states |
|---|---|---|
| PyStr.Split | api/claude.py:54 | `str.split` on one character returns one piece more than there are separators. No piece contains the separator. Joining the pieces with the separator gives back the input. |
| PyStr.EndsWithIsConcat | api/claude.py:62 | `str.endswith` as `EndsWith`: a string ends with the suffix exactly when it is some text followed by that suffix. It is a plain character test, with no parsing of domain labels. |
| PyStr.SplitJoin | api/claude.py:54 | Splitting the join of separator-free pieces gives back those pieces. This is the other round trip of `split`/`join`. |
| Claude.EmailDomain | api/claude.py:54 | `email.split("@")[1]` fails (`None`, Python's `IndexError`) exactly when the address has no `@`. Otherwise the domain it returns contains no `@`. |
| Claude.DomainIsSecondField | api/claude.py:54 | For `local@domain` followed by nothing or by `@...`, where `local` and `domain` contain no `@`, the extracted domain is `domain`. |
| Claude.DomainDecomposition | api/claude.py:54 | Every address containing `@` can be written as `local@domain` followed by nothing or by `@...`, and its extracted domain is that `domain`. |
| Claude.TablesWellFormed | api/claude.py:21-86 | No suffix appears twice, so the dictionary literal loses no entry. Every exact-table and suffix-table location is non-empty. The fallback list has ten non-empty entries. |
| Claude.FirstSuffixIndex | api/claude.py:61-63 | The loop over the suffixes returns the first entry in table order whose suffix the domain ends with: it matches, and no earlier entry does. It returns nothing exactly when no entry matches. |
| Claude.GetLocationFromEmail | api/claude.py:53-87 | The rule raises `IndexError` exactly when the address has no `@`. Otherwise it always returns a non-empty location. |
| Claude.ExactDomainWins | api/claude.py:57-58 | A domain in the exact table gives that table's location, whatever the suffix table, the model and the draw would give. |
| Claude.FirstSuffixWins | api/claude.py:61-63 | A domain not in the exact table gives the location of suffix entry `i` when it ends with that suffix and with no earlier one. |
| Claude.DotComIsTheMoon | api/claude.py:30-63 | A domain that ends in `.com` and is not in the exact table always gives "The Moon". No earlier suffix can match it, so the model is not asked. |
| Claude.CoUkTestedFirst | api/claude.py:30-63 | A domain ending in `.co.uk` also ends in `.uk`. The earlier `.co.uk` entry (index 0) is the one that answers. |
| Claude.ModelAnswerUsed | api/claude.py:65-69 | A domain that matches neither table gives the model's answer, unchanged, when that answer is non-empty. |
| Claude.FallbackOnModelFailure | api/claude.py:66-87 | A domain that matches neither table gives an entry of the fallback list when the model raises or answers the empty string. |
| Claude.EveryFallbackReachable | api/claude.py:75-87 | On the fallback path, draw `i` gives fallback entry `i`, so every joke location can be returned. |
| Claude.ModelOnlyForUnlisted | api/claude.py:56-69 | When either table matches the domain, two different models and draws give the same result. The model and the draw affect only domains that match no table. |
| Claude.GmailIsNotTheMoon | api/claude.py:21-58 | `joan@gmail.com` gives "Mountain View, USA" for every model and draw. The exact entry takes precedence over the `.com` suffix. |
| Claude.UpperCaseGoesToModel | api/claude.py:57-69 | Matching is case-sensitive. `joan@GMAIL.COM` matches no table, so a model that answers "Mountain View, USA" supplies the result. |
| Claude.WhoopGoAsksTheModel | api/claude.py:92 | The module's own call with `joan@whoop.go` returns the model's answer for `whoop.go` when that answer is non-empty, and a fallback entry otherwise. |

## Left out

- `ask_claude` and the Anthropic client (api/claude.py:2-5, 44-50) are a network call. They appear only as the `ask` parameter, which already includes the `.strip()` of the reply.
- `random.choice` (api/claude.py:87) is not deterministic. It appears only as the `pick` parameter. The lemmas claim that the result is in the list and that every entry can be drawn, and nothing about the distribution.
- The prompt text `BASE_PROMPT` and its `.format` (api/claude.py:8-18, 67) only affect what the model answers. The `ask` parameter receives the domain the prompt is built from.
- The `print` of the exception (api/claude.py:71) and the `print` of the module's test call (api/claude.py:92) are output only. The result of the test call is modelled by `WhoopGoAsksTheModel`.
- Reading the API key with `os.getenv` (api/claude.py:4) is configuration. `os` is never imported, so the module as written fails at import time. This is outside the location rule.
- The distance and delivery-time calculator is outside this model, which covers only the location rule of `api/claude.py`.
