/**
 Redaction of a decoded JSON body before it is dumped (internal/auth/debug.go):
 redactJSON and redactPatchValue, over every tree.
 */
module Redact {
  import opened Basics
  import opened SecretNames

  datatype Json =
    | Null
    | Bool(b: bool)
    | Number(text: string)
    | Str(s: string)
    | Arr(items: seq<Json>)
    | Obj(fields: map<string, Json>)

  predicate Scalar(v: Json) { !v.Arr? && !v.Obj? }

  const MARKER: Json := Str("<redacted>")

  /** strings.EqualFold(k, "token"). */
  predicate IsToken(k: string) { Lower(k) == "token" }

  // ------------------------------------------------------------------ the walk

  /** Whether an object has a scalar, non-null field of that name. */
  predicate HoldsValue(fields: map<string, Json>, k: string) {
    k in fields && Scalar(fields[k]) && !fields[k].Null?
  }

  /** What a token object looks like when the walk enters it. */
  function HideId(v: Json): Json {
    if v.Obj? && HoldsValue(v.fields, "id") then Obj(v.fields["id" := MARKER]) else v
  }

  /** What follows the last slash. */
  function LastSegment(path: string): string {
    if path == [] || path[|path| - 1] == '/' then []
    else LastSegment(path[..|path| - 1]) + [path[|path| - 1]]
  }

  /** Whether an object is a patch operation whose path names a credential. */
  ghost predicate WritesSecret(secret: string -> bool, fields: map<string, Json>) {
    "path" in fields && fields["path"].Str? && "op" in fields && secret(LastSegment(fields["path"].s))
  }

  ghost function PatchValue(secret: string -> bool, fields: map<string, Json>): map<string, Json> {
    if WritesSecret(secret, fields) && HoldsValue(fields, "value") then fields["value" := MARKER] else fields
  }

  /** One field of an object; `inToken` tells that the object is a token's. */
  ghost function Field(secret: string -> bool, k: string, v: Json, inToken: bool): Json
    decreases v, 1
  {
    if Scalar(v) && (secret(k) || (inToken && k == "id" && !v.Null?)) then MARKER
    else Walk(secret, v, IsToken(k))
  }

  ghost function Walk(secret: string -> bool, v: Json, inToken: bool): Json
    decreases v, 0
  {
    match v
    case Arr(items) => Arr(seq(|items|, i requires 0 <= i < |items| => Walk(secret, items[i], false)))
    case Obj(fields) => Obj(PatchValue(secret, map k | k in fields :: Field(secret, k, fields[k], inToken)))
    case _ => v
  }

  ghost function Redacted(v: Json): Json { Walk(SecretKey, v, false) }

  lemma WalkedObject(secret: string -> bool, fields: map<string, Json>, walked: map<string, Json>, inToken: bool)
    requires walked.Keys == fields.Keys
    requires forall k :: k in fields ==> walked[k] == Field(secret, k, fields[k], inToken)
    ensures Walk(secret, Obj(fields), inToken) == Obj(PatchValue(secret, walked))
  {
    assert walked == map k | k in fields :: Field(secret, k, fields[k], inToken);
  }

  /** The walk of a token object is the plain walk of it with its id hidden. */
  lemma EntersHidden(secret: string -> bool, v: Json)
    ensures Walk(secret, v, true) == Walk(secret, HideId(v), false)
  {
    if v.Obj? {
      var fields, hidden := v.fields, HideId(v).fields;
      assert (map k | k in fields :: Field(secret, k, fields[k], true)) ==
             (map k | k in hidden :: Field(secret, k, hidden[k], false));
    }
  }

  // ----------------------------------------------------------- place by place

  datatype Step = Key(name: string) | Index(at: nat)

  /** The value at a place in a tree. */
  ghost function At(v: Json, p: seq<Step>): Option<Json> {
    if p == [] then Some(v)
    else match p[0]
      case Key(k) => if v.Obj? && k in v.fields then At(v.fields[k], p[1..]) else None
      case Index(i) => if v.Arr? && i < |v.items| then At(v.items[i], p[1..]) else None
  }

  /** The field k of an object holds a credential: by its own name, as the id of a
      token, or as the value a patch operation writes to a secret path. */
  ghost predicate Credential(secret: string -> bool, fields: map<string, Json>, k: string, inToken: bool) {
    k in fields && Scalar(fields[k]) &&
    (secret(k) || (!fields[k].Null? && ((inToken && k == "id") || (k == "value" && WritesSecret(secret, fields)))))
  }

  /** The place p holds a credential, judged by its last step and the object around it. */
  ghost predicate Hidden(secret: string -> bool, v: Json, p: seq<Step>, inToken: bool) {
    p != [] &&
    var n := |p| - 1;
    var around := At(v, p[..n]);
    p[n].Key? && around.Some? && around.value.Obj? &&
    Credential(secret, around.value.fields, p[n].name, if n == 0 then inToken else p[n - 1].Key? && IsToken(p[n - 1].name))
  }

  /** What the walk leaves at a place that held v. */
  ghost predicate LeftAs(v: Json, r: Json, hidden: bool) {
    match v
    case Arr(items) => r.Arr? && |r.items| == |items|
    case Obj(fields) => r.Obj? && r.fields.Keys == fields.Keys
    case _ => r == if hidden then MARKER else v
  }

  /** A field keeps its kind, and a leaf that is no credential by name keeps its value. */
  lemma FieldKept(secret: string -> bool, k: string, v: Json, inToken: bool)
    ensures var r := Field(secret, k, v, inToken);
      (Scalar(r) <==> Scalar(v)) &&
      (Scalar(v) ==> r == if secret(k) || (inToken && k == "id" && !v.Null?) then MARKER else v)
  {
    var w := Walk(secret, v, IsToken(k));
    assert (Scalar(w) <==> Scalar(v)) && (Scalar(v) ==> w == v);
  }

  /** The walk does not touch what tells a patch operation. */
  lemma PatchSeesThrough(secret: string -> bool, walked: map<string, Json>, fields: map<string, Json>, inToken: bool)
    requires !secret("path") && walked.Keys == fields.Keys
    requires forall x :: x in fields ==> walked[x] == Field(secret, x, fields[x], inToken)
    ensures WritesSecret(secret, walked) == WritesSecret(secret, fields)
  {
    if "path" in fields {
      FieldKept(secret, "path", fields["path"], inToken);
      assert "path"[0] != "id"[0];
    }
  }

  /** One object: the walk keeps its keys, hides exactly its credentials, and walks
      on into the rest. */
  lemma FieldsExactly(secret: string -> bool, fields: map<string, Json>, inToken: bool, k: string)
    requires !secret("path") && k in fields
    ensures var out := Walk(secret, Obj(fields), inToken).fields;
      out.Keys == fields.Keys &&
      out[k] == if Credential(secret, fields, k, inToken) then MARKER else Walk(secret, fields[k], IsToken(k))
  {
    var walked := map x | x in fields :: Field(secret, x, fields[x], inToken);
    PatchSeesThrough(secret, walked, fields, inToken);
    WalkedObject(secret, fields, walked, inToken);
    PatchedField(secret, walked, fields, inToken, k);
  }

  lemma PatchedField(secret: string -> bool, walked: map<string, Json>, fields: map<string, Json>, inToken: bool, k: string)
    requires k in fields && walked.Keys == fields.Keys
    requires forall x :: x in fields ==> walked[x] == Field(secret, x, fields[x], inToken)
    requires WritesSecret(secret, walked) == WritesSecret(secret, fields)
    ensures PatchValue(secret, walked).Keys == fields.Keys
    ensures PatchValue(secret, walked)[k] ==
      if Credential(secret, fields, k, inToken) then MARKER else Walk(secret, fields[k], IsToken(k))
  {
    if k != "value" {
      assert PatchValue(secret, walked)[k] == walked[k];
    } else {
      assert "value"[0] != "id"[0];
      FieldKept(secret, k, fields[k], inToken);
    }
  }

  /** Place by place, for every tree: the same places exist before and after, arrays
      keep their lengths and objects their keys, and a leaf is the marker if it is a
      credential and unchanged if it is not. */
  lemma {:induction false} WalkExactly(secret: string -> bool, v: Json, p: seq<Step>, inToken: bool)
    requires !secret("path")
    ensures At(v, p).Some? <==> At(Walk(secret, v, inToken), p).Some?
    ensures At(v, p).Some? ==> LeftAs(At(v, p).value, At(Walk(secret, v, inToken), p).value, Hidden(secret, v, p, inToken))
    decreases |p|
  {
    if p == [] {
      RootExactly(secret, v, inToken);
    } else if p[0].Key? && v.Obj? && p[0].name in v.fields {
      var k := p[0].name;
      FieldsExactly(secret, v.fields, inToken, k);
      WalkExactly(secret, v.fields[k], p[1..], IsToken(k));
      if |p| >= 2 { HiddenBelow(secret, v, p, inToken); }
    } else if p[0].Index? && v.Arr? && p[0].at < |v.items| {
      WalkExactly(secret, v.items[p[0].at], p[1..], false);
      if |p| >= 2 { HiddenBelow(secret, v, p, inToken); }
    }
  }

  lemma RootExactly(secret: string -> bool, v: Json, inToken: bool)
    requires !secret("path")
    ensures LeftAs(v, Walk(secret, v, inToken), false)
  {}

  /** Whether a place is hidden is decided below the first step. */
  lemma HiddenBelow(secret: string -> bool, v: Json, p: seq<Step>, inToken: bool)
    requires |p| >= 2
    ensures p[0].Key? && v.Obj? && p[0].name in v.fields ==>
      Hidden(secret, v, p, inToken) == Hidden(secret, v.fields[p[0].name], p[1..], IsToken(p[0].name))
    ensures p[0].Index? && v.Arr? && p[0].at < |v.items| ==>
      Hidden(secret, v, p, inToken) == Hidden(secret, v.items[p[0].at], p[1..], false)
  {
    var n := |p| - 1;
    assert p[..n][1..] == p[1..][..n - 1];
    assert p[..n][0] == p[0];
  }

  // ---------------------------------------------------------------- idempotence

  /** What was no credential before the walk is none after it. */
  lemma CredentialsGone(secret: string -> bool, fields: map<string, Json>, inToken: bool, k: string)
    requires !secret("path") && k in fields && !Credential(secret, fields, k, inToken)
    ensures var out := Walk(secret, Obj(fields), inToken).fields;
      out.Keys == fields.Keys && !Credential(secret, out, k, inToken)
  {
    var out := Walk(secret, Obj(fields), inToken).fields;
    FieldsExactly(secret, fields, inToken, k);
    if "path" in fields {
      FieldsExactly(secret, fields, inToken, "path");
      assert "path"[0] != "id"[0] && "path"[0] != "value"[0];
    }
    assert WritesSecret(secret, out) == WritesSecret(secret, fields);
    assert Scalar(out[k]) ==> out[k] == fields[k];
  }

  lemma {:induction false} WalkTwice(secret: string -> bool, v: Json, inToken: bool)
    requires !secret("path")
    ensures Walk(secret, Walk(secret, v, inToken), inToken) == Walk(secret, v, inToken)
    decreases v, 1
  {
    var once := Walk(secret, v, inToken);
    match v
    case Arr(items) =>
      forall i | 0 <= i < |items| ensures Walk(secret, once.items[i], false) == once.items[i] {
        WalkTwice(secret, items[i], false);
      }
      assert Walk(secret, once, inToken).items == once.items;
    case Obj(fields) =>
      var twice := Walk(secret, once, inToken).fields;
      forall k | k in fields ensures k in once.fields && k in twice && twice[k] == once.fields[k] {
        FieldTwice(secret, fields, inToken, k);
      }
      assert twice.Keys == once.fields.Keys == fields.Keys;
      assert twice == once.fields;
    case _ =>
  }

  lemma {:induction false} FieldTwice(secret: string -> bool, fields: map<string, Json>, inToken: bool, k: string)
    requires !secret("path") && k in fields
    ensures var once := Walk(secret, Obj(fields), inToken);
      var twice := Walk(secret, once, inToken).fields;
      once.fields.Keys == twice.Keys == fields.Keys && twice[k] == once.fields[k]
    decreases Obj(fields), 0
  {
    var once := Walk(secret, Obj(fields), inToken);
    FieldsExactly(secret, fields, inToken, k);
    FieldsExactly(secret, once.fields, inToken, k);
    if !Credential(secret, fields, k, inToken) {
      CredentialsGone(secret, fields, inToken, k);
      WalkTwice(secret, fields[k], IsToken(k));
    }
  }

  // ---------------------------------------------------------------- redactJSON

  lemma PathIsNoSecret()
    ensures !SecretKey("path")
  {
    assert Lower("path") == "path";
    forall i | TailStarts("path", i) ensures i == 0 {}
    assert "path"[0..] == "path";
  }

  /** redactJSON, place by place. */
  lemma RedactedExactly(v: Json, p: seq<Step>)
    ensures At(v, p).Some? <==> At(Redacted(v), p).Some?
    ensures At(v, p).Some? ==> LeftAs(At(v, p).value, At(Redacted(v), p).value, Hidden(SecretKey, v, p, false))
  {
    PathIsNoSecret();
    WalkExactly(SecretKey, v, p, false);
  }

  /** No denylisted key, at any depth, is left holding a scalar but the marker. */
  lemma NoSecretLeft(v: Json, p: seq<Step>, k: string)
    requires SecretKey(k)
    ensures var found := At(Redacted(v), p + [Key(k)]); found.Some? && Scalar(found.value) ==> found.value == MARKER
  {
    var q := p + [Key(k)];
    RedactedExactly(v, q);
    RedactedExactly(v, p);
    if At(v, q).Some? {
      Parent(v, p, k);
      assert q[..|q| - 1] == p;
    }
  }

  lemma {:induction false} Parent(v: Json, p: seq<Step>, k: string)
    ensures At(v, p + [Key(k)]) ==
      var around := At(v, p); if around.Some? && around.value.Obj? && k in around.value.fields then Some(around.value.fields[k]) else None
    decreases |p|
  {
    var q := p + [Key(k)];
    if p == [] {
      assert q[1..] == [];
    } else {
      assert q[1..] == p[1..] + [Key(k)];
      if p[0].Key? && v.Obj? && p[0].name in v.fields {
        Parent(v.fields[p[0].name], p[1..], k);
      } else if p[0].Index? && v.Arr? && p[0].at < |v.items| {
        Parent(v.items[p[0].at], p[1..], k);
      }
    }
  }

  /** Redacting a redacted body changes nothing. */
  lemma RedactedTwice(v: Json)
    ensures Redacted(Redacted(v)) == Redacted(v)
  {
    PathIsNoSecret();
    WalkTwice(SecretKey, v, false);
  }

  /** redactJSON: the fields of an object are taken in whatever order the map gives
      them. `shape` is the tree before a token's id was hidden in it. */
  method RedactJSON(v: Json, ghost shape: Json) returns (r: Json)
    requires v == shape || v == HideId(shape)
    ensures r == Redacted(v)
    decreases shape, 1
  {
    match v
    case Arr(items) =>
      var out := RedactItems(items, shape);
      r := Arr(out);
    case Obj(fields) =>
      var walked := RedactFields(fields, shape);
      var out := RedactPatchValue(walked);
      WalkedObject(SecretKey, fields, walked, false);
      r := Obj(out);
    case _ => r := v;
  }

  method RedactItems(items: seq<Json>, ghost shape: Json) returns (out: seq<Json>)
    requires shape == Arr(items)
    ensures out == Redacted(Arr(items)).items
    decreases shape, 0
  {
    out := [];
    for i := 0 to |items|
      invariant out == Redacted(Arr(items)).items[..i]
    {
      var item := RedactJSON(items[i], items[i]);
      out := out + [item];
    }
  }

  method RedactFields(fields: map<string, Json>, ghost shape: Json) returns (out: map<string, Json>)
    requires Obj(fields) == shape || Obj(fields) == HideId(shape)
    ensures out.Keys == fields.Keys && forall k :: k in fields ==> out[k] == Field(SecretKey, k, fields[k], false)
    decreases shape, 0
  {
    out := fields;
    var todo := fields.Keys;
    while todo != {}
      invariant todo <= fields.Keys && out.Keys == fields.Keys
      invariant forall k :: k in fields ==> out[k] == if k in todo then fields[k] else Field(SecretKey, k, fields[k], false)
      decreases |todo|
    {
      var k :| k in todo;
      var val := fields[k];
      var secret := IsSecretKey(k);
      if secret && Scalar(val) {
        val := MARKER;
      } else if !Scalar(val) {
        if IsToken(k) {
          EntersHidden(SecretKey, val);
          val := RedactJSON(HideId(val), shape.fields[k]);
        } else {
          val := RedactJSON(val, shape.fields[k]);
        }
      }
      out := out[k := val];
      todo := todo - {k};
    }
  }

  method RedactPatchValue(fields: map<string, Json>) returns (out: map<string, Json>)
    ensures out == PatchValue(SecretKey, fields)
  {
    out := fields;
    if "path" !in fields || !fields["path"].Str? || "op" !in fields { return; }
    if "value" in fields && Scalar(fields["value"]) && !fields["value"].Null? {
      var secret := IsSecretKey(LastSegment(fields["path"].s));
      if secret { out := fields["value" := MARKER]; }
    }
  }

  /** The last segment of a path holds no slash, and what is before it ends with one. */
  lemma {:induction false} LastSegmentExactly(path: string) returns (front: string)
    ensures path == front + LastSegment(path) && '/' !in LastSegment(path)
    ensures front == "" || front[|front| - 1] == '/'
  {
    front := path;
    if path != [] && path[|path| - 1] != '/' {
      var init, c := path[..|path| - 1], path[|path| - 1];
      front := LastSegmentExactly(init);
      assert path == init + [c];
      assert front + (LastSegment(init) + [c]) == front + LastSegment(init) + [c];
    }
  }
}
