/** The canonical text of a binding core (RFC 8785, section 3.2.3: members in key order, no
    white space), as packages/circuits/scripts/emit-zkqes2-fixture.ts lays it out, and the
    proof that the scanners of BindingOffsets recover every field of it. */
module BindingCore {
  import opened Results
  import opened BindingOffsets

  // ----- Printer -----

  datatype Policy = Policy(bindingSchema: text, leafHash: text, policyId: text, policyVersion: nat)

  /** A string field holds the characters between its quotes in the printed text. */
  datatype Binding = Binding(
    acceptsAttribution: bool, bindsContext: bool, keyControl: bool, revocationRequired: bool,
    context: text, nonce: text, pk: text, policy: Policy,
    scheme: text, statementSchema: text, timestamp: nat, version: text)

  /** One member of the text: its key, what follows the colon, and the punctuation after it. */
  datatype Entry = Entry(key: text, quoted: bool, value: text, tail: text)

  function Show(e: Entry): text {
    Needle(e.key) + ((if e.quoted then [QUOTE] + e.value + [QUOTE] else e.value) + e.tail)
  }

  function Flat(es: seq<Entry>): text {
    if es == [] then "" else Show(es[0]) + Flat(es[1..])
  }

  function Digit(d: nat): char
    requires d < 10
  {
    ('0' as int + d) as char
  }

  /** Decimal digits, as JSON prints an integer below 10^21. */
  function Digits(n: nat): (s: text)
    ensures s != "" && forall i :: 0 <= i < |s| ==> IsDigit(s[i])
  {
    if n < 10 then [Digit(n)] else Digits(n / 10) + [Digit(n % 10)]
  }

  function Bool(b: bool): text {
    if b then "true" else "false"
  }

  /** The members of the text in order; the member whose value is an object opens it, and its
      last member closes it. */
  function Entries(b: Binding): seq<Entry> {
    [ Entry("assertions", false, "", "{"),
      Entry("acceptsAttribution", false, Bool(b.acceptsAttribution), ","),
      Entry("bindsContext", false, Bool(b.bindsContext), ","),
      Entry("keyControl", false, Bool(b.keyControl), ","),
      Entry("revocationRequired", false, Bool(b.revocationRequired), "},"),
      Entry("context", true, b.context, ","),
      Entry("nonce", true, b.nonce, ","),
      Entry("pk", true, b.pk, ","),
      Entry("policy", false, "", "{"),
      Entry("bindingSchema", true, b.policy.bindingSchema, ","),
      Entry("leafHash", true, b.policy.leafHash, ","),
      Entry("policyId", true, b.policy.policyId, ","),
      Entry("policyVersion", false, Digits(b.policy.policyVersion), "},"),
      Entry("scheme", true, b.scheme, ","),
      Entry("statementSchema", true, b.statementSchema, ","),
      Entry("timestamp", false, Digits(b.timestamp), ","),
      Entry("version", true, b.version, "}") ]
  }

  // ----- Where keys can occur -----

  predicate QuoteFree(s: text) {
    forall i :: 0 <= i < |s| ==> s[i] != QUOTE
  }

  predicate IsKey(k: text) {
    k != "" && QuoteFree(k) && 'a' <= k[0] <= 'z'
  }

  predicate EntryOk(e: Entry) {
    && IsKey(e.key) && QuoteFree(e.value) && QuoteFree(e.tail)
    && e.tail != "" && e.tail[0] in {',', '{', '}'}
  }

  predicate AllOk(es: seq<Entry>) {
    forall i :: 0 <= i < |es| ==> EntryOk(es[i])
  }

  /** Where entry j begins in Flat(es). */
  function At(es: seq<Entry>, j: nat): nat
    requires j < |es|
  {
    if j == 0 then 0 else |Show(es[0])| + At(es[1..], j - 1)
  }

  /** The characters of a shown entry, place by place, whatever comes after it. */
  lemma Layout(e: Entry, rest: text)
    ensures var t, a := Show(e) + rest, |e.key|;
      && |t| == |Show(e)| + |rest|
      && t[0] == QUOTE && t[1..1 + a] == e.key && t[1 + a] == QUOTE && t[2 + a] == ':'
    ensures var t, a, v := Show(e) + rest, 3 + |e.key|, |e.value|;
      if e.quoted then
        && |Show(e)| == a + v + 2 + |e.tail|
        && t[a] == QUOTE && t[a + 1..a + 1 + v] == e.value && t[a + 1 + v] == QUOTE
        && t[a + v + 2..a + v + 2 + |e.tail|] == e.tail
      else
        && |Show(e)| == a + v + |e.tail|
        && t[a..a + v] == e.value && t[a + v..a + v + |e.tail|] == e.tail
  {
  }

  lemma SliceAt(t: text, lo: nat, hi: nat, s: text, i: nat)
    requires lo <= hi <= |t| && t[lo..hi] == s && i < |s|
    ensures t[lo + i] == s[i]
  {
  }

  lemma NeedleChars(t: text, k: text, p: nat)
    requires MatchesAt(t, Needle(k), p)
    ensures p + |k| + 3 <= |t| && t[p] == QUOTE && t[p + 1..p + 1 + |k|] == k
    ensures t[p + 1 + |k|] == QUOTE && t[p + 2 + |k|] == ':'
  {
    var n := Needle(k);
    assert t[p..p + |n|] == n;
    assert forall i :: 0 <= i < |k| ==> t[p + 1 + i] == n[1 + i] == k[i];
    assert n[0] == QUOTE && n[1..1 + |k|] == k && n[1 + |k|] == QUOTE && n[2 + |k|] == ':';
  }

  /** Two quote-free strings that both run up to the next quote are the same string. */
  lemma SameString(t: text, p: nat, a: text, b: text)
    requires QuoteFree(a) && QuoteFree(b)
    requires p + |a| < |t| && t[p..p + |a|] == a && t[p + |a|] == QUOTE
    requires p + |b| < |t| && t[p..p + |b|] == b && t[p + |b|] == QUOTE
    ensures a == b
  {
    if |a| < |b| {
      SliceAt(t, p, p + |b|, b, |a|);
    } else if |b| < |a| {
      SliceAt(t, p, p + |a|, a, |b|);
    }
  }

  lemma NoQuoteInside(t: text, lo: nat, s: text, p: nat)
    requires QuoteFree(s) && lo + |s| <= |t| && t[lo..lo + |s|] == s
    requires p < |t| && t[p] == QUOTE
    ensures !(lo <= p < lo + |s|)
  {
    assert forall i :: lo <= i < lo + |s| ==> t[i] == t[lo..lo + |s|][i - lo];
  }

  /** The quotes of a shown entry: around its key and, if it has them, around its value. */
  lemma QuotesOf(e: Entry, rest: text, p: nat)
    requires EntryOk(e) && p < |Show(e)| && (Show(e) + rest)[p] == QUOTE
    ensures p == 0 || p == 1 + |e.key| || (e.quoted && (p == 3 + |e.key| || p == 4 + |e.key| + |e.value|))
  {
    Layout(e, rest);
    var t, a, v := Show(e) + rest, |e.key|, |e.value|;
    var from, after := if e.quoted then 4 + a else 3 + a, if e.quoted then 5 + a + v else 3 + a + v;
    NoQuoteInside(t, 1, e.key, p);
    NoQuoteInside(t, from, e.value, p);
    NoQuoteInside(t, after, e.tail, p);
  }

  /** A key literal cannot begin at any other quote: a colon or punctuation is in the way. */
  lemma NotAtOtherQuote(t: text, e: Entry, k: text, p: nat)
    requires EntryOk(e) && IsKey(k)
    requires var a, v := |e.key|, |e.value|;
      && 2 + a < |t| && t[2 + a] == ':'
      && (p != 1 + a ==> 5 + a + v < |t| && t[5 + a + v] == e.tail[0])
      && (p == 1 + a || (p == 3 + a && t[p + 1..p + 1 + v] == e.value && t[p + 1 + v] == QUOTE) || p == 4 + a + v)
    ensures !MatchesAt(t, Needle(k), p)
  {
    if MatchesAt(t, Needle(k), p) {
      NeedleChars(t, k, p);
      SliceAt(t, p + 1, p + 1 + |k|, k, 0);
      if p == 3 + |e.key| { SameString(t, p + 1, e.value, k); }
      assert false;
    }
  }

  /** Inside an entry a key literal occurs only as that entry's own key. */
  lemma OnlyAsKey(e: Entry, rest: text, k: text, p: nat)
    requires EntryOk(e) && IsKey(k) && p < |Show(e)| && MatchesAt(Show(e) + rest, Needle(k), p)
    ensures p == 0 && e.key == k
  {
    Layout(e, rest);
    NeedleChars(Show(e) + rest, k, p);
    QuotesOf(e, rest, p);
    var t, a, v := Show(e) + rest, |e.key|, |e.value|;
    if p == 0 {
      SameString(t, 1, e.key, k);
    } else {
      if e.quoted { SliceAt(t, 5 + a + v, 5 + a + v + |e.tail|, e.tail, 0); }
      NotAtOtherQuote(t, e, k, p);
    }
  }

  /** In a text of entries a key literal occurs only where an entry with that key begins. */
  lemma {:induction false} OnlyAtEntries(es: seq<Entry>, k: text, p: nat) returns (j: nat)
    requires AllOk(es) && IsKey(k) && MatchesAt(Flat(es), Needle(k), p)
    ensures j < |es| && es[j].key == k && p == At(es, j)
  {
    var n, rest := |Show(es[0])|, Flat(es[1..]);
    if p < n {
      OnlyAsKey(es[0], rest, k, p);
      j := 0;
    } else {
      assert Flat(es)[p..p + |Needle(k)|] == rest[p - n..p - n + |Needle(k)|];
      var i := OnlyAtEntries(es[1..], k, p - n);
      j := i + 1;
    }
  }

  lemma {:induction false} EntryShown(es: seq<Entry>, j: nat)
    requires j < |es|
    ensures At(es, j) + |Show(es[j])| <= |Flat(es)|
    ensures MatchesAt(Flat(es), Show(es[j]), At(es, j))
  {
    if j == 0 {
      Behind("", Show(es[0]), Flat(es[1..]));
    } else {
      EntryShown(es[1..], j - 1);
      MatchBehind(Show(es[0]), Flat(es[1..]), Show(es[j]), At(es[1..], j - 1));
    }
  }

  lemma Behind(before: text, s: text, after: text)
    ensures MatchesAt(before + (s + after), s, |before|)
  {
    assert (before + (s + after))[|before|..|before| + |s|] == s;
  }

  lemma MatchBehind(before: text, t: text, s: text, p: nat)
    requires MatchesAt(t, s, p)
    ensures MatchesAt(before + t, s, |before| + p)
  {
    assert (before + t)[|before| + p..|before| + p + |s|] == t[p..p + |s|];
  }

  lemma {:induction false} EntriesInOrder(es: seq<Entry>, i: nat, j: nat)
    requires i < j < |es|
    ensures At(es, i) + |Show(es[i])| <= At(es, j)
  {
    if i > 0 { EntriesInOrder(es[1..], i - 1, j - 1); }
  }

  // ----- Finding an entry by its key -----

  predicate Distinct(es: seq<Entry>) {
    forall i, j :: 0 <= i < |es| && 0 <= j < |es| && es[i].key == es[j].key ==> i == j
  }

  /** The text of an object: its opening brace, then its entries. */
  function Document(es: seq<Entry>): text {
    "{" + Flat(es)
  }

  lemma Shift(s: text, n: text, p: nat)
    ensures MatchesAt("{" + s, n, p + 1) <==> MatchesAt(s, n, p)
  {
    if p + |n| <= |s| {
      assert ("{" + s)[p + 1..p + 1 + |n|] == s[p..p + |n|];
    }
  }

  lemma NotAtBrace(s: text, k: text)
    ensures !MatchesAt("{" + s, Needle(k), 0)
  {
    if MatchesAt("{" + s, Needle(k), 0) {
      NeedleChars("{" + s, k, 0);
      assert false;
    }
  }

  lemma PrefixMatches(t: text, a: text, b: text, p: nat)
    requires MatchesAt(t, a + b, p)
    ensures MatchesAt(t, a, p) && MatchesAt(t, b, p + |a|)
  {
    var m := |a| + |b|;
    assert t[p..p + m][..|a|] == a && t[p..p + m][|a|..] == b;
  }

  /** A key literal occurs in a document only where an entry with that key begins. */
  lemma OnlyInDocument(es: seq<Entry>, k: text, p: nat) returns (j: nat)
    requires AllOk(es) && IsKey(k) && MatchesAt(Document(es), Needle(k), p)
    ensures j < |es| && es[j].key == k && p == 1 + At(es, j)
  {
    NotAtBrace(Flat(es), k);
    Shift(Flat(es), Needle(k), p - 1);
    j := OnlyAtEntries(es, k, p - 1);
  }

  lemma EntryInDocument(es: seq<Entry>, j: nat)
    requires j < |es|
    ensures MatchesAt(Document(es), Show(es[j]), 1 + At(es, j))
  {
    EntryShown(es, j);
    Shift(Flat(es), Show(es[j]), At(es, j));
  }

  lemma KeyInDocument(es: seq<Entry>, j: nat)
    requires j < |es|
    ensures MatchesAt(Document(es), Needle(es[j].key), 1 + At(es, j))
  {
    EntryInDocument(es, j);
    ShowBegins(Document(es), es[j], 1 + At(es, j));
  }

  lemma ShowBegins(t: text, e: Entry, q: nat)
    requires MatchesAt(t, Show(e), q)
    ensures MatchesAt(t, Needle(e.key), q)
  {
    PrefixMatches(t, Needle(e.key), (if e.quoted then [QUOTE] + e.value + [QUOTE] else e.value) + e.tail, q);
  }

  ghost predicate OnlyMatch(t: text, n: text, q: nat) {
    MatchesAt(t, n, q) && forall p: nat :: MatchesAt(t, n, p) ==> p == q
  }

  /** The key literal of an entry occurs once in the document, where the entry begins. */
  lemma KeyOccursOnce(es: seq<Entry>, j: nat)
    requires AllOk(es) && Distinct(es) && j < |es|
    ensures OnlyMatch(Document(es), Needle(es[j].key), 1 + At(es, j))
  {
    KeyInDocument(es, j);
    forall p: nat | MatchesAt(Document(es), Needle(es[j].key), p) ensures p == 1 + At(es, j) {
      var i := OnlyInDocument(es, es[j].key, p);
    }
  }

  predicate FoundAt(r: Result<nat, ScanError>, p: nat) {
    r.Ok? && r.value == p
  }

  /** What the scanners do with a literal that occurs once, from anywhere up to it. */
  lemma FindsOnlyMatch(t: text, k: text, q: nat, start: nat)
    requires OnlyMatch(t, Needle(k), q) && start <= q
    ensures FoundAt(KeyEnd(t, k, start), q + |k| + 3)
    ensures JcsKeyOffset(t, k) == Ok(q)
  {
    assert MatchesAt(t, Needle(k), q);
  }

  /** The entry is shown at q, and its key literal occurs nowhere else. */
  ghost predicate EntryAt(t: text, e: Entry, q: nat) {
    EntryOk(e) && MatchesAt(t, Show(e), q) && OnlyMatch(t, Needle(e.key), q)
  }

  ghost predicate Indexed(t: text, es: seq<Entry>) {
    forall j: nat {:trigger At(es, j)} :: j < |es| ==> EntryAt(t, es[j], 1 + At(es, j))
  }

  lemma DocumentIndexed(es: seq<Entry>)
    requires AllOk(es) && Distinct(es)
    ensures Indexed(Document(es), es)
  {
    forall j: nat | j < |es| ensures EntryAt(Document(es), es[j], 1 + At(es, j)) {
      EntryInDocument(es, j);
      KeyOccursOnce(es, j);
    }
  }

  /** findJcsKeyValueOffset succeeds exactly on a literal that occurs once, and says where. */
  lemma JcsMeansOnlyMatch(t: text, k: text, q: nat)
    ensures JcsKeyOffset(t, k) == Ok(q) <==> OnlyMatch(t, Needle(k), q)
  {
    if OnlyMatch(t, Needle(k), q) { FindsOnlyMatch(t, k, q, 0); }
  }

  /** Both scanners find the entry. */
  lemma FindsEntry(t: text, e: Entry, q: nat, start: nat)
    requires EntryAt(t, e, q) && start <= q
    ensures FoundAt(KeyEnd(t, e.key, start), q + |e.key| + 3)
    ensures JcsKeyOffset(t, e.key) == Ok(q)
  {
    FindsOnlyMatch(t, e.key, q, start);
  }

  /** v is the value that stands, quoted, after a key literal, and at is where v begins. */
  predicate QuotedField(t: text, k: text, v: text, at: nat) {
    && at > |k| + 3
    && MatchesAt(t, Needle(k), at - |k| - 4) && at + |v| < |t|
    && t[at - 1] == QUOTE && t[at..at + |v|] == v && t[at + |v|] == QUOTE
    && QuotedLength(t, at) == |v|
  }

  lemma BetweenQuotes(t: text, v: text, at: nat)
    requires QuoteFree(v) && MatchesAt(t, [QUOTE] + v + [QUOTE], at)
    ensures at + 1 + |v| < |t| && t[at] == QUOTE && t[at + 1..at + 1 + |v|] == v && t[at + 1 + |v|] == QUOTE
    ensures QuotedLength(t, at + 1) == |v|
  {
    PrefixMatches(t, [QUOTE] + v, [QUOTE], at);
    PrefixMatches(t, [QUOTE], v, at);
    OneChar(t, QUOTE, at);
    OneChar(t, QUOTE, at + 1 + |v|);
    QuoteEnds(t, at + 1, v);
  }

  lemma ShownQuoted(t: text, e: Entry, q: nat)
    requires e.quoted && QuoteFree(e.value) && MatchesAt(t, Show(e), q)
    ensures QuotedField(t, e.key, e.value, q + |e.key| + 4)
  {
    var inside := [QUOTE] + e.value + [QUOTE];
    PrefixMatches(t, Needle(e.key), inside + e.tail, q);
    PrefixMatches(t, inside, e.tail, q + |e.key| + 3);
    BetweenQuotes(t, e.value, q + |e.key| + 3);
  }

  lemma OneChar(t: text, c: char, p: nat)
    requires MatchesAt(t, [c], p)
    ensures p < |t| && t[p] == c
  {
    assert t[p..p + 1][0] == c;
  }

  lemma {:induction false} QuoteEnds(t: text, at: nat, v: text)
    requires QuoteFree(v) && MatchesAt(t, v, at) && at + |v| < |t| && t[at + |v|] == QUOTE
    ensures QuotedLength(t, at) == |v|
    decreases v
  {
    if v != "" {
      assert [v[0]] + v[1..] == v;
      PrefixMatches(t, [v[0]], v[1..], at);
      OneChar(t, v[0], at);
      QuoteEnds(t, at + 1, v[1..]);
    }
  }

  /** v is the value that stands unquoted after a key literal, before the character c. */
  predicate PlainField(t: text, k: text, v: text, c: char, at: nat) {
    && at >= |k| + 3
    && MatchesAt(t, Needle(k), at - |k| - 3) && MatchesAt(t, v, at)
    && at + |v| < |t| && t[at + |v|] == c
  }

  lemma ShownPlain(t: text, e: Entry, q: nat)
    requires !e.quoted && e.tail != "" && MatchesAt(t, Show(e), q)
    ensures PlainField(t, e.key, e.value, e.tail[0], q + |e.key| + 3)
  {
    var at := q + |Needle(e.key)|;
    PrefixMatches(t, Needle(e.key), e.value + e.tail, q);
    PrefixMatches(t, e.value, e.tail, at);
    assert [e.tail[0]] + e.tail[1..] == e.tail;
    PrefixMatches(t, [e.tail[0]], e.tail[1..], at + |e.value|);
    OneChar(t, e.tail[0], at + |e.value|);
  }

  lemma {:induction false} NumberEnds(t: text, at: nat, v: text)
    requires (forall i :: 0 <= i < |v| ==> IsDigit(v[i])) && MatchesAt(t, v, at)
    requires at + |v| < |t| && !IsDigit(t[at + |v|])
    ensures NumberLength(t, at) == |v|
    decreases v
  {
    if v != "" {
      assert [v[0]] + v[1..] == v;
      PrefixMatches(t, [v[0]], v[1..], at);
      OneChar(t, v[0], at);
      NumberEnds(t, at + 1, v[1..]);
    }
  }

  // ----- The binding -----

  const PLAIN_LIMIT: nat := 1_000_000_000_000_000_000_000   // JSON prints integers plainly below 10^21

  predicate Printable(b: Binding) {
    && QuoteFree(b.context) && QuoteFree(b.nonce) && QuoteFree(b.pk)
    && QuoteFree(b.policy.bindingSchema) && QuoteFree(b.policy.leafHash) && QuoteFree(b.policy.policyId)
    && QuoteFree(b.scheme) && QuoteFree(b.statementSchema) && QuoteFree(b.version)
    && b.policy.policyVersion < PLAIN_LIMIT && b.timestamp < PLAIN_LIMIT
  }

  function Print(b: Binding): text {
    Document(Entries(b))
  }

  const KEYS: seq<text> :=
    [ "assertions", "acceptsAttribution", "bindsContext", "keyControl", "revocationRequired",
      "context", "nonce", "pk",
      "policy", "bindingSchema", "leafHash", "policyId", "policyVersion",
      "scheme", "statementSchema", "timestamp", "version" ]

  lemma KeysOk()
    ensures forall i :: 0 <= i < |KEYS| ==> IsKey(KEYS[i])
  {
  }

  /** Length and first letter tell the keys apart. */
  function KeyIndex(k: text): nat
    requires k != ""
  {
    match (|k|, k[0])
    case (10, 'a') => 0 case (18, 'a') => 1 case (12, 'b') => 2 case (10, 'k') => 3 case (18, 'r') => 4
    case (7, 'c') => 5 case (5, 'n') => 6 case (2, 'p') => 7
    case (6, 'p') => 8 case (13, 'b') => 9 case (8, 'l') => 10 case (8, 'p') => 11 case (13, 'p') => 12
    case (6, 's') => 13 case (15, 's') => 14 case (9, 't') => 15 case _ => 16
  }

  lemma KeysDistinct()
    ensures forall i :: 0 <= i < |KEYS| ==> KEYS[i] != "" && KeyIndex(KEYS[i]) == i
  {
  }

  lemma EntryKeys(b: Binding)
    ensures |Entries(b)| == |KEYS| && forall i :: 0 <= i < |KEYS| ==> Entries(b)[i].key == KEYS[i]
  {
  }

  lemma EntryTails(b: Binding)
    ensures forall i :: 0 <= i < |Entries(b)| ==>
      var tail := Entries(b)[i].tail; QuoteFree(tail) && tail != "" && tail[0] in {',', '{', '}'}
  {
  }

  lemma EntryValues(b: Binding)
    requires Printable(b)
    ensures forall i :: 0 <= i < |Entries(b)| ==> QuoteFree(Entries(b)[i].value)
  {
  }

  lemma EntriesOk(b: Binding)
    requires Printable(b)
    ensures AllOk(Entries(b)) && Distinct(Entries(b))
  {
    var es := Entries(b);
    EntryKeys(b);
    EntryTails(b);
    EntryValues(b);
    KeysOk();
    KeysDistinct();
  }

  lemma PrintedIndexed(b: Binding)
    requires Printable(b)
    ensures Indexed(Print(b), Entries(b))
  {
    EntriesOk(b);
    DocumentIndexed(Entries(b));
  }

  function DigitValue(c: char): nat
    requires IsDigit(c)
  {
    c as int - '0' as int
  }

  /** The number a string of decimal digits denotes. */
  function NumberOf(s: text): nat
    requires forall i :: 0 <= i < |s| ==> IsDigit(s[i])
  {
    if s == "" then 0 else 10 * NumberOf(s[..|s| - 1]) + DigitValue(s[|s| - 1])
  }

  /** The digits denote the number, with no zero in front. */
  lemma {:induction false} DigitsRoundTrip(n: nat)
    ensures NumberOf(Digits(n)) == n
    ensures |Digits(n)| > 1 ==> Digits(n)[0] != '0'
  {
    var s := Digits(n);
    if n >= 10 {
      DigitsRoundTrip(n / 10);
      assert s[..|s| - 1] == Digits(n / 10);
    } else {
      assert s[..0] == "";
    }
  }

  /** The number whose digits begin at a position. */
  function NumberAt(t: text, at: nat): nat
    requires at <= |t|
  {
    NumberOf(t[at..at + NumberLength(t, at)])
  }

  /** The len digits after a key literal are followed by no more of them and denote n. */
  predicate NumberField(t: text, k: text, n: nat, at: nat, len: nat) {
    && |k| + 3 <= at <= |t| && MatchesAt(t, Needle(k), at - |k| - 3)
    && len == NumberLength(t, at) > 0 && NumberAt(t, at) == n
  }

  predicate StringFound(t: text, k: text, v: text, start: nat, at: nat) {
    FoundAt(ValueStart(t, k, true, start), at) && QuotedField(t, k, v, at)
  }

  predicate NumberFound(t: text, k: text, n: nat, start: nat, at: nat) {
    FoundAt(ValueStart(t, k, false, start), at) && NumberField(t, k, n, at, NumberLength(t, at))
  }

  lemma NumberReads(t: text, at: nat, n: nat)
    requires MatchesAt(t, Digits(n), at) && at + |Digits(n)| < |t| && !IsDigit(t[at + |Digits(n)|])
    ensures NumberLength(t, at) == |Digits(n)| && NumberAt(t, at) == n
  {
    NumberEnds(t, at, Digits(n));
    DigitsRoundTrip(n);
  }

  lemma FindsString(t: text, e: Entry, q: nat, start: nat) returns (at: nat)
    requires EntryAt(t, e, q) && e.quoted && start <= q
    ensures StringFound(t, e.key, e.value, start, at)
  {
    at := q + |e.key| + 4;
    FindsEntry(t, e, q, start);
    ShownQuoted(t, e, q);
  }

  lemma FindsNumber(t: text, e: Entry, q: nat, n: nat, start: nat) returns (at: nat)
    requires EntryAt(t, e, q) && !e.quoted && e.value == Digits(n) && start <= q
    ensures NumberFound(t, e.key, n, start, at)
  {
    at := q + |e.key| + 3;
    FindsEntry(t, e, q, start);
    ShownPlain(t, e, q);
    NumberReads(t, at, n);
  }

  lemma FindsBlock(t: text, e: Entry, q: nat) returns (at: nat)
    requires EntryAt(t, e, q) && !e.quoted
    ensures FoundAt(KeyEnd(t, e.key, 0), at) && PlainField(t, e.key, e.value, e.tail[0], at)
    ensures at <= q + |Show(e)|
  {
    at := q + |e.key| + 3;
    FindsEntry(t, e, q, 0);
    ShownPlain(t, e, q);
  }

  predicate IsString(e: Entry, k: text, v: text) {
    e.quoted && e.key == k && e.value == v
  }

  predicate IsNumber(e: Entry, k: text, n: nat) {
    !e.quoted && e.key == k && e.value == Digits(n)
  }

  predicate IsBlock(e: Entry, k: text) {
    !e.quoted && e.key == k && e.value == "" && e.tail == "{"
  }

  lemma FindsStringIn(t: text, es: seq<Entry>, j: nat, k: text, v: text) returns (at: nat)
    requires Indexed(t, es) && j < |es| && IsString(es[j], k, v)
    ensures StringFound(t, k, v, 0, at)
  {
    at := FindsString(t, es[j], 1 + At(es, j), 0);
  }

  lemma FindsNumberIn(t: text, es: seq<Entry>, j: nat, k: text, n: nat) returns (at: nat)
    requires Indexed(t, es) && j < |es| && IsNumber(es[j], k, n)
    ensures NumberFound(t, k, n, 0, at)
  {
    at := FindsNumber(t, es[j], 1 + At(es, j), n, 0);
  }

  lemma FindsBlockIn(t: text, es: seq<Entry>, j: nat, k: text) returns (at: nat)
    requires Indexed(t, es) && j < |es| && IsBlock(es[j], k)
    ensures FoundAt(KeyEnd(t, k, 0), at) && PlainField(t, k, "", '{', at)
    ensures Before(es, j, at)
  {
    at := FindsBlock(t, es[j], 1 + At(es, j));
    forall i: nat | j < i < |es| ensures at <= 1 + At(es, i) { EntriesInOrder(es, j, i); }
  }

  /** Every entry after the j-th begins at or after the position. */
  ghost predicate Before(es: seq<Entry>, j: nat, at: nat) {
    forall i: nat {:trigger At(es, i)} :: j < i < |es| ==> at <= 1 + At(es, i)
  }

  lemma FindsStringAfter(t: text, es: seq<Entry>, b: nat, at: nat, j: nat, k: text, v: text) returns (r: nat)
    requires Indexed(t, es) && b < j < |es| && IsString(es[j], k, v) && Before(es, b, at)
    ensures StringFound(t, k, v, at, r)
  {
    r := FindsString(t, es[j], 1 + At(es, j), at);
  }

  lemma FindsNumberAfter(t: text, es: seq<Entry>, b: nat, at: nat, j: nat, k: text, n: nat) returns (r: nat)
    requires Indexed(t, es) && b < j < |es| && IsNumber(es[j], k, n) && Before(es, b, at)
    ensures NumberFound(t, k, n, at, r)
  {
    r := FindsNumber(t, es[j], 1 + At(es, j), n, at);
  }

  /** The entries the scanners look for, and their places. */
  predicate Lists(es: seq<Entry>, b: Binding) {
    && |es| == 17
    && IsBlock(es[0], "assertions") && IsString(es[5], "context", b.context)
    && IsString(es[6], "nonce", b.nonce) && IsString(es[7], "pk", b.pk) && IsBlock(es[8], "policy")
    && IsString(es[9], "bindingSchema", b.policy.bindingSchema)
    && IsString(es[10], "leafHash", b.policy.leafHash) && IsString(es[11], "policyId", b.policy.policyId)
    && IsNumber(es[12], "policyVersion", b.policy.policyVersion)
    && IsString(es[13], "scheme", b.scheme) && IsString(es[14], "statementSchema", b.statementSchema)
    && IsNumber(es[15], "timestamp", b.timestamp) && IsString(es[16], "version", b.version)
  }

  lemma EntriesList(b: Binding)
    ensures Lists(Entries(b), b)
  {
  }

  // ----- The scanners recover the binding -----

  predicate HasHexPrefix(s: text) {
    |s| >= 2 && s[..2] == "0x"
  }

  /** Every offset points at the field with its name, and every length is that field's. */
  predicate Recovers(t: text, o: Offsets, b: Binding) {
    && QuotedField(t, "pk", b.pk, o.pk)
    && QuotedField(t, "scheme", b.scheme, o.scheme)
    && PlainField(t, "assertions", "", '{', o.assertions)
    && QuotedField(t, "statementSchema", b.statementSchema, o.statementSchema)
    && QuotedField(t, "nonce", b.nonce, o.nonce)
    && QuotedField(t, "context", b.context, o.ctx) && o.ctxHexLen + 2 == |b.context|
    && QuotedField(t, "policyId", b.policy.policyId, o.policyId) && o.policyIdLen == |b.policy.policyId|
    && QuotedField(t, "leafHash", b.policy.leafHash, o.policyLeafHash)
    && QuotedField(t, "bindingSchema", b.policy.bindingSchema, o.policyBindingSchema)
    && NumberField(t, "policyVersion", b.policy.policyVersion, o.policyVersion, o.policyVersionDigits)
    && NumberField(t, "timestamp", b.timestamp, o.ts, o.tsDigits)
    && QuotedField(t, "version", b.version, o.version)
  }

  lemma ContextPrefix(t: text, context: text, at: nat)
    requires QuotedField(t, "context", context, at)
    ensures HexPrefixAt(t, at) <==> HasHexPrefix(context)
  {
    if |context| >= 2 { assert t[at..at + 2] == t[at..at + |context|][..2]; }
  }

  /** A text whose entries are those of b. */
  ghost predicate Holds(t: text, es: seq<Entry>, b: Binding) {
    Indexed(t, es) && Lists(es, b)
  }

  lemma PrintedHolds(b: Binding)
    requires Printable(b)
    ensures Holds(Print(b), Entries(b), b)
  {
    PrintedIndexed(b);
    EntriesList(b);
  }

  lemma TopFields(t: text, es: seq<Entry>, b: Binding)
    returns (pk: nat, scheme: nat, statementSchema: nat, nonce: nat, ctx: nat, ts: nat, version: nat)
    requires Holds(t, es, b)
    ensures StringFound(t, "pk", b.pk, 0, pk) && StringFound(t, "scheme", b.scheme, 0, scheme)
    ensures StringFound(t, "statementSchema", b.statementSchema, 0, statementSchema)
    ensures StringFound(t, "nonce", b.nonce, 0, nonce) && StringFound(t, "context", b.context, 0, ctx)
    ensures NumberFound(t, "timestamp", b.timestamp, 0, ts) && StringFound(t, "version", b.version, 0, version)
  {
    pk := FindsStringIn(t, es, 7, "pk", b.pk);
    scheme := FindsStringIn(t, es, 13, "scheme", b.scheme);
    statementSchema := FindsStringIn(t, es, 14, "statementSchema", b.statementSchema);
    nonce := FindsStringIn(t, es, 6, "nonce", b.nonce);
    ctx := FindsStringIn(t, es, 5, "context", b.context);
    ts := FindsNumberIn(t, es, 15, "timestamp", b.timestamp);
    version := FindsStringIn(t, es, 16, "version", b.version);
  }

  lemma PolicyFields(t: text, es: seq<Entry>, b: Binding)
    returns (block: nat, bindingSchema: nat, leafHash: nat, policyId: nat, policyVersion: nat)
    requires Holds(t, es, b)
    ensures FoundAt(KeyEnd(t, "policy", 0), block)
    ensures StringFound(t, "bindingSchema", b.policy.bindingSchema, block, bindingSchema)
    ensures StringFound(t, "leafHash", b.policy.leafHash, block, leafHash)
    ensures StringFound(t, "policyId", b.policy.policyId, block, policyId)
    ensures NumberFound(t, "policyVersion", b.policy.policyVersion, block, policyVersion)
  {
    block := FindsBlockIn(t, es, 8, "policy");
    bindingSchema := FindsStringAfter(t, es, 8, block, 9, "bindingSchema", b.policy.bindingSchema);
    leafHash := FindsStringAfter(t, es, 8, block, 10, "leafHash", b.policy.leafHash);
    policyId := FindsStringAfter(t, es, 8, block, 11, "policyId", b.policy.policyId);
    policyVersion := FindsNumberAfter(t, es, 8, block, 12, "policyVersion", b.policy.policyVersion);
  }

  lemma ExtractsHeld(t: text, es: seq<Entry>, b: Binding)
    requires Holds(t, es, b)
    ensures var r := ExtractedOffsets(t);
      && (r.Ok? <==> HasHexPrefix(b.context)) && (r.Ok? ==> Recovers(t, r.value, b))
      && (r.Err? ==> r.error.ContextNotHex? && r.error.length == |b.context|)
  {
    var pk, scheme, statementSchema, nonce, ctx, ts, version := TopFields(t, es, b);
    var assertions := FindsBlockIn(t, es, 0, "assertions");
    var block, bindingSchema, leafHash, policyId, policyVersion := PolicyFields(t, es, b);
    ContextPrefix(t, b.context, ctx);
  }

  /** On every printed binding the extractor succeeds exactly when the context starts with 0x,
      and then recovers every field; otherwise it reports the length of the context. */
  lemma ExtractsPrinted(b: Binding)
    requires Printable(b)
    ensures var r := ExtractedOffsets(Print(b));
      && (r.Ok? <==> HasHexPrefix(b.context)) && (r.Ok? ==> Recovers(Print(b), r.value, b))
      && (r.Err? ==> r.error.ContextNotHex? && r.error.length == |b.context|)
  {
    PrintedHolds(b);
    ExtractsHeld(Print(b), Entries(b), b);
  }

  /** On every printed binding findJcsKeyValueOffset finds exactly the seventeen keys, and
      agrees with the extractor's scan up to the length of the key literal. */
  lemma JcsFindsExactlyTheKeys(b: Binding, k: text)
    requires Printable(b) && IsKey(k)
    ensures JcsKeyOffset(Print(b), k).Ok? <==> k in KEYS
    ensures k !in KEYS ==> JcsKeyOffset(Print(b), k) == Err(OffsetNotFound(false))
    ensures k in KEYS ==> FoundAt(KeyEnd(Print(b), k, 0), JcsKeyOffset(Print(b), k).value + |k| + 3)
  {
    var es := Entries(b);
    EntryKeys(b);
    EntriesOk(b);
    if k in KEYS {
      var j :| 0 <= j < |KEYS| && KEYS[j] == k;
      PrintedIndexed(b);
      FindsEntry(Print(b), es[j], 1 + At(es, j), 0);
    } else {
      forall p: nat ensures !MatchesAt(Print(b), Needle(k), p) {
        if MatchesAt(Print(b), Needle(k), p) { var j := OnlyInDocument(es, k, p); }
      }
    }
  }

  lemma SameFound(t: text, k: text, v: text, w: text, start: nat, at: nat, bt: nat)
    requires StringFound(t, k, v, start, at) && StringFound(t, k, w, start, bt)
    ensures v == w
  {
  }

  lemma SameNumber(t: text, k: text, m: nat, n: nat, start: nat, at: nat, bt: nat)
    requires NumberFound(t, k, m, start, at) && NumberFound(t, k, n, start, bt)
    ensures m == n
  {
  }

  /** The printer is injective: bindings with the same text are the same. */
  lemma PrintedFieldsUnique(a: Binding, b: Binding)
    requires Printable(a) && Printable(b) && Print(a) == Print(b)
    ensures a == b
  {
    PrintedHolds(a);
    PrintedHolds(b);
    SameFields(Print(a), Entries(a), Entries(b), a, b);
    SamePolicy(Print(a), Entries(a), Entries(b), a, b);
    EntriesListFlags(a);
    EntriesListFlags(b);
    SameAssertions(Print(a), Entries(a), Entries(b), a, b);
  }

  /** A truth value and the punctuation behind it, read at the same place. */
  lemma SameBool(t: text, e: Entry, f: Entry, p: bool, q: bool, at: nat)
    requires EntryAt(t, e, at) && EntryAt(t, f, at) && e.key == f.key && !e.quoted && !f.quoted
    requires e.value == Bool(p) && f.value == Bool(q)
    ensures p == q
  {
    ShownPlain(t, e, at);
    ShownPlain(t, f, at);
    var v := at + |e.key| + 3;
    assert t[v] == t[v..v + |Bool(p)|][0] == Bool(p)[0];
    assert t[v] == t[v..v + |Bool(q)|][0] == Bool(q)[0];
  }

  predicate IsFlag(e: Entry, k: text, v: bool) {
    !e.quoted && e.key == k && e.value == Bool(v)
  }

  lemma SameFlag(t: text, es: seq<Entry>, fs: seq<Entry>, j: nat, k: text, p: bool, q: bool)
    requires Indexed(t, es) && Indexed(t, fs) && j < |es| && j < |fs|
    requires IsFlag(es[j], k, p) && IsFlag(fs[j], k, q)
    ensures p == q
  {
    var at, bt := 1 + At(es, j), 1 + At(fs, j);
    assert EntryAt(t, es[j], at) && EntryAt(t, fs[j], bt);
    assert MatchesAt(t, Needle(k), bt);
    SameBool(t, es[j], fs[j], p, q, at);
  }

  /** The entries of the assertions, and their places. */
  predicate ListsFlags(es: seq<Entry>, b: Binding) {
    && |es| == 17
    && IsFlag(es[1], "acceptsAttribution", b.acceptsAttribution) && IsFlag(es[2], "bindsContext", b.bindsContext)
    && IsFlag(es[3], "keyControl", b.keyControl) && IsFlag(es[4], "revocationRequired", b.revocationRequired)
  }

  lemma EntriesListFlags(b: Binding)
    ensures ListsFlags(Entries(b), b)
  {
  }

  /** A truth value as JSON writes it. */
  predicate IsJsonBool(t: text, at: nat, v: bool) {
    MatchesAt(t, if v then "true" else "false", at)
  }

  /** The key literal stands here and nowhere else, and behind it the truth value. */
  ghost predicate FlagStands(t: text, k: text, v: bool, at: nat) {
    OnlyMatch(t, Needle(k), at) && IsJsonBool(t, at + |k| + 3, v)
  }

  lemma FlagOf(b: Binding, j: nat, k: text, v: bool)
    requires Printable(b) && j < |Entries(b)| && IsFlag(Entries(b)[j], k, v)
    ensures FlagStands(Print(b), k, v, 1 + At(Entries(b), j))
  {
    var e, q := Entries(b)[j], 1 + At(Entries(b), j);
    PrintedIndexed(b);
    FlagIsShown(Print(b), e, k, q, v);
  }

  lemma FlagIsShown(t: text, e: Entry, k: text, q: nat, v: bool)
    requires IsFlag(e, k, v) && EntryAt(t, e, q)
    ensures FlagStands(t, k, v, q)
  {
    ShownPlain(t, e, q);
  }

  /** The four truth values are written out behind their keys. */
  lemma FlagsArePrinted(b: Binding)
    requires Printable(b)
    ensures exists at :: FlagStands(Print(b), "acceptsAttribution", b.acceptsAttribution, at)
    ensures exists at :: FlagStands(Print(b), "bindsContext", b.bindsContext, at)
    ensures exists at :: FlagStands(Print(b), "keyControl", b.keyControl, at)
    ensures exists at :: FlagStands(Print(b), "revocationRequired", b.revocationRequired, at)
  {
    EntriesListFlags(b);
    FlagOf(b, 1, "acceptsAttribution", b.acceptsAttribution);
    FlagOf(b, 2, "bindsContext", b.bindsContext);
    FlagOf(b, 3, "keyControl", b.keyControl);
    FlagOf(b, 4, "revocationRequired", b.revocationRequired);
  }

  lemma SameAssertions(t: text, es: seq<Entry>, fs: seq<Entry>, a: Binding, b: Binding)
    requires Indexed(t, es) && Indexed(t, fs) && ListsFlags(es, a) && ListsFlags(fs, b)
    ensures a.acceptsAttribution == b.acceptsAttribution && a.bindsContext == b.bindsContext
    ensures a.keyControl == b.keyControl && a.revocationRequired == b.revocationRequired
  {
    SameFlag(t, es, fs, 1, "acceptsAttribution", a.acceptsAttribution, b.acceptsAttribution);
    SameFlag(t, es, fs, 2, "bindsContext", a.bindsContext, b.bindsContext);
    SameFlag(t, es, fs, 3, "keyControl", a.keyControl, b.keyControl);
    SameFlag(t, es, fs, 4, "revocationRequired", a.revocationRequired, b.revocationRequired);
  }

  lemma SameFields(t: text, es: seq<Entry>, fs: seq<Entry>, a: Binding, b: Binding)
    requires Holds(t, es, a) && Holds(t, fs, b)
    ensures a.pk == b.pk && a.scheme == b.scheme && a.statementSchema == b.statementSchema
    ensures a.nonce == b.nonce && a.context == b.context && a.timestamp == b.timestamp && a.version == b.version
  {
    var pk, scheme, statementSchema, nonce, ctx, ts, version := TopFields(t, es, a);
    var pk', scheme', statementSchema', nonce', ctx', ts', version' := TopFields(t, fs, b);
    SameFound(t, "pk", a.pk, b.pk, 0, pk, pk');
    SameFound(t, "scheme", a.scheme, b.scheme, 0, scheme, scheme');
    SameFound(t, "statementSchema", a.statementSchema, b.statementSchema, 0, statementSchema, statementSchema');
    SameFound(t, "nonce", a.nonce, b.nonce, 0, nonce, nonce');
    SameFound(t, "context", a.context, b.context, 0, ctx, ctx');
    SameNumber(t, "timestamp", a.timestamp, b.timestamp, 0, ts, ts');
    SameFound(t, "version", a.version, b.version, 0, version, version');
  }

  lemma SamePolicy(t: text, es: seq<Entry>, fs: seq<Entry>, a: Binding, b: Binding)
    requires Holds(t, es, a) && Holds(t, fs, b)
    ensures a.policy == b.policy
  {
    var p, q := a.policy, b.policy;
    var block, bindingSchema, leafHash, policyId, policyVersion := PolicyFields(t, es, a);
    var block', bindingSchema', leafHash', policyId', policyVersion' := PolicyFields(t, fs, b);
    SameFound(t, "bindingSchema", p.bindingSchema, q.bindingSchema, block, bindingSchema, bindingSchema');
    SameFound(t, "leafHash", p.leafHash, q.leafHash, block, leafHash, leafHash');
    SameFound(t, "policyId", p.policyId, q.policyId, block, policyId, policyId');
    SameNumber(t, "policyVersion", p.policyVersion, q.policyVersion, block, policyVersion, policyVersion');
  }
}
