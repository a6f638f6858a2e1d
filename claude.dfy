/** The email-to-location rule of `api/claude.py`: the domain of an address is
    looked up in a table of known providers, then matched against an ordered
    table of suffixes, then handed to a language model, and finally replaced
    by a joke location drawn from a fixed list.

    The language model is the parameter `ask`: `ask(domain)` is the stripped
    text the model answers for the prompt built from `domain`, or `None` when
    the call raises. The random draw is the parameter `pick`: the fallback
    entry chosen is the one at position `pick` modulo the list's length. */
module Claude {
  import opened Wrappers
  import opened PyStr

  /** Known mail providers and the towns of their headquarters. */
  const EXACT_DOMAINS: map<string, string> := map[
    "gmail.com"   := "Mountain View, USA",
    "outlook.com" := "Seattle, USA",
    "hotmail.com" := "Seattle, USA",
    "icloud.com"  := "Cupertino, USA",
    "yahoo.com"   := "Sunnyvale, USA"
  ]

  /** Suffix guesses, in the dictionary's insertion order, which is the order
      they are tried in. */
  const DOMAIN_SUFFIXES: seq<(string, string)> := [
    (".co.uk", "London, UK"),
    (".uk",    "London, UK"),
    (".za",    "Cape Town, South Africa"),
    (".de",    "Berlin, Germany"),
    (".fr",    "Paris, France"),
    (".in",    "Mumbai, India"),
    (".us",    "Los Angeles, USA"),
    (".edu",   "Boston, USA"),
    (".gov",   "Washington DC, USA"),
    (".com",   "The Moon")
  ]

  /** Joke locations used when nothing else gives an answer. */
  const RANDOM_FALLBACKS: seq<string> := [
    "Nowhere, Internet",
    "The Cloud, Everywhere",
    "Area 51, USA",
    "Middle of Nowhere, Earth",
    "Narnia, Fictional",
    "Atlantis, Undersea",
    "Mars Colony, Mars",
    "The Moon, Space",
    "Back of the Fridge, Home",
    "42nd Parallel, Unknown"
  ]

  /** The suffix table is a faithful dictionary (no key twice) and no
      location in any table is empty. */
  lemma TablesWellFormed()
    ensures forall i, j :: 0 <= i < j < |DOMAIN_SUFFIXES| ==> DOMAIN_SUFFIXES[i].0 != DOMAIN_SUFFIXES[j].0
    ensures forall d :: d in EXACT_DOMAINS ==> EXACT_DOMAINS[d] != ""
    ensures forall i :: 0 <= i < |DOMAIN_SUFFIXES| ==> DOMAIN_SUFFIXES[i].1 != ""
    ensures |RANDOM_FALLBACKS| == 10
    ensures forall i :: 0 <= i < |RANDOM_FALLBACKS| ==> RANDOM_FALLBACKS[i] != ""
  {
  }

  /** `email.split("@")[1]`: the text between the first `@` and the next one
      (or the end); an address without `@` raises IndexError, here `None`. */
  function EmailDomain(email: string): (r: Option<string>)
    ensures r.None? <==> '@' !in email
    ensures r.Some? ==> '@' !in r.value
  {
    var parts := Split(email, '@');
    CountZero(email, '@');
    if |parts| > 1 then Some(parts[1]) else None
  }

  /** `email` reads `local@domain` followed by nothing or by another `@...`. */
  predicate SplitsAs(email: string, local: string, domain: string, rest: string)
  {
    && email == local + "@" + domain + rest
    && '@' !in local
    && '@' !in domain
    && (rest == [] || rest[0] == '@')
  }

  /** The domain is exactly the part after the first `@` and before any second `@`. */
  lemma DomainIsSecondField(email: string, local: string, domain: string, rest: string)
    requires SplitsAs(email, local, domain, rest)
    ensures EmailDomain(email) == Some(domain)
  {
    assert email == local + ['@'] + (domain + rest);
    SplitAtFirst(local, domain + rest, '@');
    SplitFreeHead(domain, rest, '@');
    var p := Split(rest, '@');
    assert p[0] == [] by {
      if rest != [] {
        assert rest[0] == '@';
      }
    }
    assert domain + p[0] == domain;
  }

  /** Every address with an `@` reads `local@domain...` in exactly the way
      `DomainIsSecondField` describes. */
  lemma {:induction false} DomainDecomposition(email: string) returns (local: string, domain: string, rest: string)
    requires '@' in email
    ensures SplitsAs(email, local, domain, rest)
    ensures EmailDomain(email) == Some(domain)
  {
    var parts := Split(email, '@');
    CountZero(email, '@');
    local, domain := parts[0], parts[1];
    var tail := parts[1..];
    assert Join(parts, '@') == local + ['@'] + Join(tail, '@');
    if |parts| == 2 {
      rest := [];
      assert Join(tail, '@') == domain;
    } else {
      rest := ['@'] + Join(parts[2..], '@');
      assert tail[1..] == parts[2..];
      assert Join(tail, '@') == domain + rest;
    }
    assert email == local + "@" + domain + rest;
    DomainIsSecondField(email, local, domain, rest);
  }

  /** Position in `table` of the first entry whose suffix `domain` ends with,
      scanning in table order; `None` when no entry matches. */
  function FirstSuffixIndex(domain: string, table: seq<(string, string)>): (r: Option<nat>)
    ensures r.Some? ==> r.value < |table| && EndsWith(domain, table[r.value].0)
    ensures r.Some? ==> forall j :: 0 <= j < r.value ==> !EndsWith(domain, table[j].0)
    ensures r.None? <==> forall j :: 0 <= j < |table| ==> !EndsWith(domain, table[j].0)
  {
    if table == [] then None
    else if EndsWith(domain, table[0].0) then Some(0)
    else match FirstSuffixIndex(domain, table[1..])
      case None => None
      case Some(i) => Some(i + 1)
  }

  /** `get_location_from_email`. */
  function GetLocationFromEmail(email: string, ask: string -> Option<string>, pick: nat): (r: Result<string>)
    ensures r.Err? <==> '@' !in email
    ensures r.Ok? ==> r.value != ""
  {
    TablesWellFormed();
    match EmailDomain(email)
    case None => Err(IndexError)
    case Some(domain) =>
      if domain in EXACT_DOMAINS then Ok(EXACT_DOMAINS[domain])
      else match FirstSuffixIndex(domain, DOMAIN_SUFFIXES)
        case Some(i) => Ok(DOMAIN_SUFFIXES[i].1)
        case None =>
          var guess := ask(domain);
          if guess.Some? && guess.value != "" then Ok(guess.value)
          else Ok(RANDOM_FALLBACKS[pick % |RANDOM_FALLBACKS|])
  }

  /** Neither the exact table nor any suffix applies to `domain`. */
  predicate Unlisted(domain: string)
  {
    && domain !in EXACT_DOMAINS
    && forall j :: 0 <= j < |DOMAIN_SUFFIXES| ==> !EndsWith(domain, DOMAIN_SUFFIXES[j].0)
  }

  /** Tier 1: a known provider's domain gives its table entry, whatever the
      suffix table, the model or the draw would have said. */
  lemma ExactDomainWins(email: string, local: string, domain: string, rest: string,
                        ask: string -> Option<string>, pick: nat)
    requires SplitsAs(email, local, domain, rest)
    requires domain in EXACT_DOMAINS
    ensures GetLocationFromEmail(email, ask, pick) == Ok(EXACT_DOMAINS[domain])
  {
    DomainIsSecondField(email, local, domain, rest);
  }

  /** Tier 2: an unknown domain ending with the suffix of entry `i`, and with
      none of the entries before it, gives entry `i`'s location. */
  lemma FirstSuffixWins(email: string, local: string, domain: string, rest: string,
                        ask: string -> Option<string>, pick: nat, i: nat)
    requires SplitsAs(email, local, domain, rest)
    requires domain !in EXACT_DOMAINS
    requires i < |DOMAIN_SUFFIXES| && EndsWith(domain, DOMAIN_SUFFIXES[i].0)
    requires forall j :: 0 <= j < i ==> !EndsWith(domain, DOMAIN_SUFFIXES[j].0)
    ensures GetLocationFromEmail(email, ask, pick) == Ok(DOMAIN_SUFFIXES[i].1)
  {
    DomainIsSecondField(email, local, domain, rest);
    var k := FirstSuffixIndex(domain, DOMAIN_SUFFIXES);
    assert k == Some(i) by {
      assert k.Some?;
      if k.value < i {
      } else if k.value > i {
      }
    }
  }

  /** Two suffixes with different last characters never both match. */
  lemma LastCharsDiffer(domain: string, a: string, b: string)
    requires a != [] && b != [] && a[|a| - 1] != b[|b| - 1]
    requires EndsWith(domain, a)
    ensures !EndsWith(domain, b)
  {
  }

  /** Any unknown domain ending in `.com` lands on the Moon: no earlier suffix
      can match it, so the model is never asked. */
  lemma DotComIsTheMoon(email: string, local: string, domain: string, rest: string,
                        ask: string -> Option<string>, pick: nat)
    requires SplitsAs(email, local, domain, rest)
    requires domain !in EXACT_DOMAINS
    requires EndsWith(domain, ".com")
    ensures GetLocationFromEmail(email, ask, pick) == Ok("The Moon")
  {
    var last := |DOMAIN_SUFFIXES| - 1;
    forall j | 0 <= j < last
      ensures !EndsWith(domain, DOMAIN_SUFFIXES[j].0)
    {
      LastCharsDiffer(domain, ".com", DOMAIN_SUFFIXES[j].0);
    }
    FirstSuffixWins(email, local, domain, rest, ask, pick, last);
  }

  /** `.co.uk` is tried before `.uk`: every domain ending with `.co.uk` also
      ends with `.uk`, and it is the earlier entry that supplies the answer. */
  lemma CoUkTestedFirst(email: string, local: string, domain: string, rest: string,
                        ask: string -> Option<string>, pick: nat)
    requires SplitsAs(email, local, domain, rest)
    requires domain !in EXACT_DOMAINS
    requires EndsWith(domain, ".co.uk")
    ensures EndsWith(domain, DOMAIN_SUFFIXES[1].0)
    ensures FirstSuffixIndex(domain, DOMAIN_SUFFIXES) == Some(0)
    ensures GetLocationFromEmail(email, ask, pick) == Ok(DOMAIN_SUFFIXES[0].1)
  {
    SuffixTransitive(domain, ".co.uk", ".uk");
    FirstSuffixWins(email, local, domain, rest, ask, pick, 0);
  }

  /** Tier 3: for an unlisted domain a non-empty model answer is the result,
      unchanged. */
  lemma ModelAnswerUsed(email: string, local: string, domain: string, rest: string,
                        ask: string -> Option<string>, pick: nat)
    requires SplitsAs(email, local, domain, rest)
    requires Unlisted(domain)
    requires ask(domain).Some? && ask(domain).value != ""
    ensures GetLocationFromEmail(email, ask, pick) == Ok(ask(domain).value)
  {
    DomainIsSecondField(email, local, domain, rest);
  }

  /** Tier 4: for an unlisted domain, a model call that raises or answers
      the empty string yields one of the joke locations. */
  lemma FallbackOnModelFailure(email: string, local: string, domain: string, rest: string,
                               ask: string -> Option<string>, pick: nat)
    requires SplitsAs(email, local, domain, rest)
    requires Unlisted(domain)
    requires ask(domain).None? || ask(domain) == Some("")
    ensures GetLocationFromEmail(email, ask, pick).Ok?
    ensures GetLocationFromEmail(email, ask, pick).value in RANDOM_FALLBACKS
  {
    DomainIsSecondField(email, local, domain, rest);
  }

  /** Every joke location can be drawn. */
  lemma EveryFallbackReachable(email: string, local: string, domain: string, rest: string,
                               ask: string -> Option<string>, i: nat)
    requires SplitsAs(email, local, domain, rest)
    requires Unlisted(domain)
    requires ask(domain).None? || ask(domain) == Some("")
    requires i < |RANDOM_FALLBACKS|
    ensures GetLocationFromEmail(email, ask, i) == Ok(RANDOM_FALLBACKS[i])
  {
    DomainIsSecondField(email, local, domain, rest);
  }

  /** The model and the draw matter only for unlisted domains: when a table
      applies, any two models and any two draws give the same location. */
  lemma ModelOnlyForUnlisted(email: string, local: string, domain: string, rest: string,
                             ask1: string -> Option<string>, pick1: nat,
                             ask2: string -> Option<string>, pick2: nat)
    requires SplitsAs(email, local, domain, rest)
    requires !Unlisted(domain)
    ensures GetLocationFromEmail(email, ask1, pick1) == GetLocationFromEmail(email, ask2, pick2)
  {
    DomainIsSecondField(email, local, domain, rest);
  }

  // Worked examples on fixed addresses. Each address is a parameter pinned
  // by `requires email == "..."` rather than a literal in the `ensures`: a
  // literal argument makes the verifier unfold `Split` character by character
  // and the proof runs out of resource.

  /** Example only: `ExactDomainWins` applied to one address. It shows that a
      known provider beats the `.com` suffix entry. */
  lemma GmailIsNotTheMoon(email: string, ask: string -> Option<string>, pick: nat)
    requires email == "joan@gmail.com"
    ensures GetLocationFromEmail(email, ask, pick) == Ok("Mountain View, USA")
  {
    ExactDomainWins(email, "joan", "gmail.com", "", ask, pick);
  }

  /** Matching is case-sensitive: an upper-case provider domain is unlisted
      and goes to the model. */
  lemma UpperCaseGoesToModel(email: string, ask: string -> Option<string>, pick: nat)
    requires email == "joan@GMAIL.COM"
    requires ask("GMAIL.COM") == Some("Mountain View, USA")
    ensures GetLocationFromEmail(email, ask, pick) == Ok("Mountain View, USA")
  {
    var d := "GMAIL.COM";
    forall j | 0 <= j < |DOMAIN_SUFFIXES|
      ensures !EndsWith(d, DOMAIN_SUFFIXES[j].0)
    {
      LastCharsDiffer(d, "M", DOMAIN_SUFFIXES[j].0);
    }
    ModelAnswerUsed(email, "joan", d, "", ask, pick);
  }

  /** The module's own test call: `whoop.go` matches no table, so the answer is
      the model's when it gives one and a joke location otherwise. */
  lemma WhoopGoAsksTheModel(email: string, ask: string -> Option<string>, pick: nat)
    requires email == "joan@whoop.go"
    ensures var r := GetLocationFromEmail(email, ask, pick);
      && r.Ok?
      && (if ask("whoop.go").Some? && ask("whoop.go").value != ""
          then r.value == ask("whoop.go").value
          else r.value in RANDOM_FALLBACKS)
  {
    var d := "whoop.go";
    forall j | 0 <= j < |DOMAIN_SUFFIXES|
      ensures !EndsWith(d, DOMAIN_SUFFIXES[j].0)
    {
      LastCharsDiffer(d, "o", DOMAIN_SUFFIXES[j].0);
    }
    assert SplitsAs(email, "joan", d, "");
    if ask(d).Some? && ask(d).value != "" {
      ModelAnswerUsed(email, "joan", d, "", ask, pick);
    } else {
      FallbackOnModelFailure(email, "joan", d, "", ask, pick);
    }
  }
}
