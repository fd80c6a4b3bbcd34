/** The text that BindingCore prints, entry by entry, is the nested layout of
    packages/circuits/scripts/emit-zkqes2-fixture.ts, object by object. */
module BindingLayout {
  import opened BindingOffsets
  import opened BindingCore

  function Field(k: text, v: text): text {
    Needle(k) + [QUOTE] + v + [QUOTE]
  }

  function AssertionsJson(b: Binding): text {
    "{" + Needle("acceptsAttribution") + Bool(b.acceptsAttribution) + ","
        + Needle("bindsContext") + Bool(b.bindsContext) + ","
        + Needle("keyControl") + Bool(b.keyControl) + ","
        + Needle("revocationRequired") + Bool(b.revocationRequired) + "}"
  }

  function PolicyJson(p: Policy): text {
    "{" + Field("bindingSchema", p.bindingSchema) + ","
        + Field("leafHash", p.leafHash) + ","
        + Field("policyId", p.policyId) + ","
        + Needle("policyVersion") + Digits(p.policyVersion) + "}"
  }

  function BindingJson(b: Binding): text {
    "{" + Needle("assertions") + AssertionsJson(b) + ","
        + Field("context", b.context) + ","
        + Field("nonce", b.nonce) + ","
        + Field("pk", b.pk) + ","
        + Needle("policy") + PolicyJson(b.policy) + ","
        + Field("scheme", b.scheme) + ","
        + Field("statementSchema", b.statementSchema) + ","
        + Needle("timestamp") + Digits(b.timestamp) + ","
        + Field("version", b.version) + "}"
  }

  // ----- Writing entries one after the other -----

  function Written(before: text, es: seq<Entry>): text
    decreases |es|
  {
    if es == [] then before else Written(before + Show(es[0]), es[1..])
  }

  lemma Assoc(a: text, b: text, c: text)
    ensures a + (b + c) == a + b + c
  {
  }

  lemma {:induction false} WrittenIsFlat(before: text, es: seq<Entry>)
    ensures Written(before, es) == before + Flat(es)
    decreases |es|
  {
    if es != [] {
      WrittenIsFlat(before + Show(es[0]), es[1..]);
      Assoc(before, Show(es[0]), Flat(es[1..]));
    } else {
      assert before + "" == before;
    }
  }

  lemma WriteFirst(before: text, e: Entry, es: seq<Entry>)
    ensures Written(before, [e] + es) == Written(before + Show(e), es)
  {
    assert ([e] + es)[1..] == es;
  }

  lemma AfterString(before: text, k: text, v: text, tail: text)
    ensures before + Show(Entry(k, true, v, tail)) == before + Field(k, v) + tail
  {
    Assoc(Needle(k), [QUOTE] + v + [QUOTE], tail);
    assert Needle(k) + ([QUOTE] + v + [QUOTE]) == Field(k, v);
    Assoc(before, Field(k, v), tail);
  }

  lemma AfterPlain(before: text, k: text, v: text, tail: text)
    ensures before + Show(Entry(k, false, v, tail)) == before + Needle(k) + v + tail
  {
    Assoc(Needle(k), v, tail);
    Assoc(before, Needle(k) + v, tail);
    Assoc(before, Needle(k), v);
  }

  lemma WriteString(before: text, k: text, v: text, tail: text, es: seq<Entry>)
    ensures Written(before, [Entry(k, true, v, tail)] + es) == Written(before + Field(k, v) + tail, es)
  {
    WriteFirst(before, Entry(k, true, v, tail), es);
    AfterString(before, k, v, tail);
  }

  lemma WritePlain(before: text, k: text, v: text, tail: text, es: seq<Entry>)
    ensures Written(before, [Entry(k, false, v, tail)] + es) == Written(before + Needle(k) + v + tail, es)
  {
    WriteFirst(before, Entry(k, false, v, tail), es);
    AfterPlain(before, k, v, tail);
  }

  lemma Opened(before: text, k: text)
    ensures before + Needle(k) + "" + "{" == before + Needle(k) + "{"
  {
    assert before + Needle(k) + "" == before + Needle(k);
  }

  lemma Closed(before: text)
    ensures before + "}," == before + "}" + ","
  {
    assert "}," == "}" + ",";
    Assoc(before, "}", ",");
  }


  // ----- The objects inside -----

  lemma AfterAssertions(before: text, b: Binding)
    ensures before + AssertionsJson(b) == before + "{" + Needle("acceptsAttribution") + Bool(b.acceptsAttribution) + ","
      + Needle("bindsContext") + Bool(b.bindsContext) + "," + Needle("keyControl")
      + Bool(b.keyControl) + "," + Needle("revocationRequired") + Bool(b.revocationRequired)
      + "}"
  {
    var x1 := "{" + Needle("acceptsAttribution");
    var x2 := x1 + Bool(b.acceptsAttribution);
    var x3 := x2 + ",";
    var x4 := x3 + Needle("bindsContext");
    var x5 := x4 + Bool(b.bindsContext);
    var x6 := x5 + ",";
    var x7 := x6 + Needle("keyControl");
    var x8 := x7 + Bool(b.keyControl);
    var x9 := x8 + ",";
    var x10 := x9 + Needle("revocationRequired");
    var x11 := x10 + Bool(b.revocationRequired);
    Assoc(before, "{", Needle("acceptsAttribution"));
    Assoc(before, x1, Bool(b.acceptsAttribution));
    Assoc(before, x2, ",");
    Assoc(before, x3, Needle("bindsContext"));
    Assoc(before, x4, Bool(b.bindsContext));
    Assoc(before, x5, ",");
    Assoc(before, x6, Needle("keyControl"));
    Assoc(before, x7, Bool(b.keyControl));
    Assoc(before, x8, ",");
    Assoc(before, x9, Needle("revocationRequired"));
    Assoc(before, x10, Bool(b.revocationRequired));
    Assoc(before, x11, "}");
  }

  lemma AfterPolicy(before: text, p: Policy)
    ensures before + PolicyJson(p) == before + "{" + Field("bindingSchema", p.bindingSchema) + ","
      + Field("leafHash", p.leafHash) + "," + Field("policyId", p.policyId) + "," + Needle("policyVersion")
      + Digits(p.policyVersion) + "}"
  {
    var x1 := "{" + Field("bindingSchema", p.bindingSchema);
    var x2 := x1 + ",";
    var x3 := x2 + Field("leafHash", p.leafHash);
    var x4 := x3 + ",";
    var x5 := x4 + Field("policyId", p.policyId);
    var x6 := x5 + ",";
    var x7 := x6 + Needle("policyVersion");
    var x8 := x7 + Digits(p.policyVersion);
    Assoc(before, "{", Field("bindingSchema", p.bindingSchema));
    Assoc(before, x1, ",");
    Assoc(before, x2, Field("leafHash", p.leafHash));
    Assoc(before, x3, ",");
    Assoc(before, x4, Field("policyId", p.policyId));
    Assoc(before, x5, ",");
    Assoc(before, x6, Needle("policyVersion"));
    Assoc(before, x7, Digits(p.policyVersion));
    Assoc(before, x8, "}");
  }

  // ----- The whole text -----

  function AssertionEntries(b: Binding): seq<Entry> {
    [ Entry("acceptsAttribution", false, Bool(b.acceptsAttribution), ","),
      Entry("bindsContext", false, Bool(b.bindsContext), ","),
      Entry("keyControl", false, Bool(b.keyControl), ","),
      Entry("revocationRequired", false, Bool(b.revocationRequired), "},") ]
  }

  function PolicyEntries(p: Policy): seq<Entry> {
    [ Entry("bindingSchema", true, p.bindingSchema, ","),
      Entry("leafHash", true, p.leafHash, ","),
      Entry("policyId", true, p.policyId, ","),
      Entry("policyVersion", false, Digits(p.policyVersion), "},") ]
  }

  lemma WriteAssertions(before: text, b: Binding, rest: seq<Entry>)
    ensures Written(before, [Entry("assertions", false, "", "{")] + (AssertionEntries(b) + rest))
      == Written(before + Needle("assertions") + AssertionsJson(b) + ",", rest)
  {
    var es := AssertionEntries(b);
    var t := before + Needle("assertions");
    WritePlain(before, "assertions", "", "{", es + rest);
    Opened(before, "assertions");
    var r3 := [es[3]] + rest;
    var r2 := [es[2]] + r3;
    var r1 := [es[1]] + r2;
    assert es + rest == [es[0]] + r1;
    var t1 := t + "{" + Needle("acceptsAttribution") + Bool(b.acceptsAttribution) + ",";
    WritePlain(t + "{", "acceptsAttribution", Bool(b.acceptsAttribution), ",", r1);
    var t2 := t1 + Needle("bindsContext") + Bool(b.bindsContext) + ",";
    WritePlain(t1, "bindsContext", Bool(b.bindsContext), ",", r2);
    var t3 := t2 + Needle("keyControl") + Bool(b.keyControl) + ",";
    WritePlain(t2, "keyControl", Bool(b.keyControl), ",", r3);
    WritePlain(t3, "revocationRequired", Bool(b.revocationRequired), "},", rest);
    Closed(t3 + Needle("revocationRequired") + Bool(b.revocationRequired));
    AfterAssertions(t, b);
  }

  lemma WritePolicy(before: text, p: Policy, rest: seq<Entry>)
    ensures Written(before, [Entry("policy", false, "", "{")] + (PolicyEntries(p) + rest))
      == Written(before + Needle("policy") + PolicyJson(p) + ",", rest)
  {
    var es := PolicyEntries(p);
    var t := before + Needle("policy");
    WritePlain(before, "policy", "", "{", es + rest);
    Opened(before, "policy");
    var r3 := [es[3]] + rest;
    var r2 := [es[2]] + r3;
    var r1 := [es[1]] + r2;
    assert es + rest == [es[0]] + r1;
    var t1 := t + "{" + Field("bindingSchema", p.bindingSchema) + ",";
    WriteString(t + "{", "bindingSchema", p.bindingSchema, ",", r1);
    var t2 := t1 + Field("leafHash", p.leafHash) + ",";
    WriteString(t1, "leafHash", p.leafHash, ",", r2);
    var t3 := t2 + Field("policyId", p.policyId) + ",";
    WriteString(t2, "policyId", p.policyId, ",", r3);
    WritePlain(t3, "policyVersion", Digits(p.policyVersion), "},", rest);
    Closed(t3 + Needle("policyVersion") + Digits(p.policyVersion));
    AfterPolicy(t, p);
  }

  function MiddleEntries(b: Binding): seq<Entry> {
    [Entry("context", true, b.context, ","), Entry("nonce", true, b.nonce, ","), Entry("pk", true, b.pk, ",")]
  }

  function LastEntries(b: Binding): seq<Entry> {
    [ Entry("scheme", true, b.scheme, ","), Entry("statementSchema", true, b.statementSchema, ","),
      Entry("timestamp", false, Digits(b.timestamp), ","), Entry("version", true, b.version, "}") ]
  }

  lemma WriteMiddle(before: text, b: Binding, rest: seq<Entry>)
    ensures Written(before, MiddleEntries(b) + rest)
      == Written(before + Field("context", b.context) + "," + Field("nonce", b.nonce) + "," + Field("pk", b.pk) + ",", rest)
  {
    var es := MiddleEntries(b);
    var r2 := [es[2]] + rest;
    var r1 := [es[1]] + r2;
    assert es + rest == [es[0]] + r1;
    var t1 := before + Field("context", b.context) + ",";
    WriteString(before, "context", b.context, ",", r1);
    WriteString(t1, "nonce", b.nonce, ",", r2);
    WriteString(t1 + Field("nonce", b.nonce) + ",", "pk", b.pk, ",", rest);
  }

  lemma WriteLast(before: text, b: Binding)
    ensures Written(before, LastEntries(b))
      == before + Field("scheme", b.scheme) + "," + Field("statementSchema", b.statementSchema) + ","
        + Needle("timestamp") + Digits(b.timestamp) + "," + Field("version", b.version) + "}"
  {
    var es := LastEntries(b);
    var r3 := [es[3]] + [];
    var r2 := [es[2]] + r3;
    var r1 := [es[1]] + r2;
    assert es == [es[0]] + r1;
    var t1 := before + Field("scheme", b.scheme) + ",";
    WriteString(before, "scheme", b.scheme, ",", r1);
    var t2 := t1 + Field("statementSchema", b.statementSchema) + ",";
    WriteString(t1, "statementSchema", b.statementSchema, ",", r2);
    WritePlain(t2, "timestamp", Digits(b.timestamp), ",", r3);
    WriteString(t2 + Needle("timestamp") + Digits(b.timestamp) + ",", "version", b.version, "}", []);
  }

  lemma EntriesInParts(b: Binding)
    ensures Entries(b) == [Entry("assertions", false, "", "{")] + (AssertionEntries(b)
      + (MiddleEntries(b) + ([Entry("policy", false, "", "{")] + (PolicyEntries(b.policy) + LastEntries(b)))))
  {
  }

  /** Entry by entry or object by object, it is the same text. */
  lemma PrintIsBindingJson(b: Binding)
    ensures Print(b) == BindingJson(b)
  {
    EntriesInParts(b);
    WrittenIsFlat("{", Entries(b));
    var policyOn := [Entry("policy", false, "", "{")] + (PolicyEntries(b.policy) + LastEntries(b));
    WriteAssertions("{", b, MiddleEntries(b) + policyOn);
    var t1 := "{" + Needle("assertions") + AssertionsJson(b) + ",";
    WriteMiddle(t1, b, policyOn);
    var t2 := t1 + Field("context", b.context) + "," + Field("nonce", b.nonce) + "," + Field("pk", b.pk) + ",";
    WritePolicy(t2, b.policy, LastEntries(b));
    WriteLast(t2 + Needle("policy") + PolicyJson(b.policy) + ",", b);
  }
}
