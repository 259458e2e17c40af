/**
 * The request/response schemas: `UserSchema`, `TitleSchema` and `AuthSchema`
 * as field descriptors, with marshmallow's load (validate input) and dump
 * (serialize output) written as explicit functions.
 *
 * Load follows marshmallow 3's defaults: a key the schema does not load
 * (undeclared, or declared dump-only) is an "Unknown field" error; a required
 * field that is absent is "Missing data"; None is refused; a `Str` field takes
 * only strings (and checks `Length(max=...)`); an `Integer` field takes only
 * integers. All errors are collected, as marshmallow does, and the document is
 * accepted only when there are none. Dump keeps the declared keys the object
 * has, except load-only ones.
 */
module Schemas {
  import opened Wrappers

  /** A JSON value as it reaches the schema. */
  datatype Json = JNull | JBool(b: bool) | JInt(i: int) | JStr(s: string)

  datatype Kind = Str | Integer | Nested

  /** One declared field: its type, `required`, the `Length(max=...)`
      validator if any, `load_only` and `dump_only`. */
  datatype Field = Field(name: string, kind: Kind, required: bool, maxLength: Option<nat>,
                         loadOnly: bool, dumpOnly: bool)

  type Schema = seq<Field>
  type Doc = map<string, Json>

  const UserSchema: Schema := [
    Field("id", Integer, false, None, false, true),
    Field("username", Str, true, Some(250), false, false),
    Field("email", Str, true, Some(250), false, false),
    Field("password", Str, true, Some(100), true, false),
    Field("role", Str, true, Some(250), false, false)]

  /** `rating`'s `Length(max=4)` is not part of this model (see the README). */
  const TitleSchema: Schema := [
    Field("id", Integer, false, None, false, true),
    Field("user_id", Nested, false, None, false, true),
    Field("title_name", Str, true, Some(250), false, false),
    Field("rating", Integer, true, None, false, false),
    Field("title_type", Str, true, Some(250), false, false),
    Field("title_status", Str, true, Some(250), false, false),
    Field("message", Str, false, None, false, true)]

  const AuthSchema: Schema := [
    Field("access_token", Str, false, None, false, true),
    Field("message", Str, false, None, false, true)]

  /** The declaration of `name`, if the schema has one: found exactly when
      some field carries the name. */
  function Declared(schema: Schema, name: string): (r: Option<Field>)
    ensures r.Some? ==> r.value in schema && r.value.name == name
    ensures r.None? ==> forall i :: 0 <= i < |schema| ==> schema[i].name != name
  {
    if schema == [] then None
    else if schema[0].name == name then Some(schema[0])
    else Declared(schema[1..], name)
  }

  predicate Loadable(schema: Schema, name: string) {
    Declared(schema, name).Some? && !Declared(schema, name).value.dumpOnly
  }

  predicate Dumpable(schema: Schema, name: string) {
    Declared(schema, name).Some? && !Declared(schema, name).value.loadOnly
  }

  datatype Problem = UnknownField | MissingData | MayNotBeNull | NotAString | NotAnInteger | TooLong

  datatype FieldError = FieldError(field: string, problem: Problem)

  /** What a field's deserializer and validators say about a present value:
      nothing exactly when the value conforms to the declaration. */
  function Check(f: Field, v: Json): (p: Option<Problem>)
    ensures p.None? <==> Conforms(f, v)
    ensures v.JNull? ==> p == Some(MayNotBeNull)
  {
    if v.JNull? then Some(MayNotBeNull)
    else match f.kind
      case Str =>
        if !v.JStr? then Some(NotAString)
        else if f.maxLength.Some? && |v.s| > f.maxLength.value then Some(TooLong)
        else None
      case Integer => if v.JInt? then None else Some(NotAnInteger)
      case Nested => None
  }

  /** Every error marshmallow collects for `input`: none exactly when the
      declarations accept the document, and each names an input key or a
      declared field. */
  function Errors(schema: Schema, input: Doc): (errors: set<FieldError>)
    ensures errors == {} <==> Accepts(schema, input)
    ensures forall e :: e in errors ==> e.field in input || Declared(schema, e.field).Some?
  {
    var errors :=
      (set k | k in input && !Loadable(schema, k) :: FieldError(k, UnknownField))
      + (set f | f in schema && !f.dumpOnly && f.required && f.name !in input :: FieldError(f.name, MissingData))
      + (set f | f in schema && !f.dumpOnly && f.name in input && Check(f, input[f.name]).Some? ::
           FieldError(f.name, Check(f, input[f.name]).value));
    assert !Accepts(schema, input) ==> errors != {} by {
      if !Accepts(schema, input) {
        if k :| k in input && !Loadable(schema, k) {
          assert FieldError(k, UnknownField) in errors;
        } else if f :| f in schema && !f.dumpOnly && f.required && f.name !in input {
          assert FieldError(f.name, MissingData) in errors;
        } else {
          var f :| f in schema && !f.dumpOnly && f.name in input && !Conforms(f, input[f.name]);
          assert FieldError(f.name, Check(f, input[f.name]).value) in errors;
        }
      }
    }
    errors
  }

  /** `schema.load(input)`: succeeds exactly on the documents the
      declarations accept, and then returns the document unchanged;
      otherwise it reports every error at once. */
  function Load(schema: Schema, input: Doc): (r: Result<Doc, set<FieldError>>)
    ensures r.Ok? <==> Accepts(schema, input)
    ensures r.Ok? ==> r.value == input
    ensures r.Err? ==> r.error == Errors(schema, input) && r.error != {}
  {
    var errors := Errors(schema, input);
    if errors == {} then Ok(input) else Err(errors)
  }

  /** What the declarations say a present value must be. */
  predicate Conforms(f: Field, v: Json) {
    && !v.JNull?
    && (f.kind == Str ==> v.JStr? && (f.maxLength.Some? ==> |v.s| <= f.maxLength.value))
    && (f.kind == Integer ==> v.JInt?)
  }

  /** The declarations, read directly: only loadable keys, every required
      loadable field present, every present field conforming. */
  predicate Accepts(schema: Schema, input: Doc) {
    && (forall k :: k in input ==> Loadable(schema, k))
    && (forall f :: f in schema && !f.dumpOnly && f.required ==> f.name in input)
    && (forall f :: f in schema && !f.dumpOnly && f.name in input ==> Conforms(f, input[f.name]))
  }

  /** No two fields of the schema share a name. */
  predicate NamesUnique(schema: Schema) {
    forall i, j :: 0 <= i < j < |schema| ==> schema[i].name != schema[j].name
  }

  /** With unique names, looking a field's name up finds that field. */
  lemma {:induction false} DeclaredUnique(schema: Schema, f: Field)
    requires NamesUnique(schema) && f in schema
    ensures Declared(schema, f.name) == Some(f)
  {
    if schema[0] != f {
      var i :| 0 <= i < |schema| && schema[i] == f;
      assert i != 0;
      assert schema[0].name != f.name;
      assert f in schema[1..] by { assert schema[1..][i - 1] == f; }
      assert NamesUnique(schema[1..]) by {
        forall i, j | 0 <= i < j < |schema[1..]| ensures schema[1..][i].name != schema[1..][j].name {
          assert schema[1..][i] == schema[i + 1] && schema[1..][j] == schema[j + 1];
        }
      }
      DeclaredUnique(schema[1..], f);
    }
  }

  /** Dump keeps a key exactly when the object has it and its declaration
      is not load-only. */
  lemma DumpKey(schema: Schema, obj: Doc, k: string)
    ensures k in Dump(schema, obj) <==> k in obj && Dumpable(schema, k)
  {
  }

  /** `schema.dump(obj)`: every output key is a declared field that is not
      load-only, carrying the object's value; when names are unique, every
      such field the object has is output. */
  function Dump(schema: Schema, obj: Doc): (out: Doc)
    ensures forall k :: k in out ==> k in obj && out[k] == obj[k]
    ensures forall k :: k in out ==> exists f :: f in schema && f.name == k && !f.loadOnly
    ensures NamesUnique(schema) ==> forall f :: f in schema && !f.loadOnly && f.name in obj ==> f.name in out
  {
    var out := map k | k in obj && Dumpable(schema, k) :: obj[k];
    assert NamesUnique(schema) ==> forall f :: f in schema && !f.loadOnly && f.name in obj ==> f.name in out by {
      if NamesUnique(schema) {
        forall f | f in schema && !f.loadOnly && f.name in obj ensures f.name in out {
          DeclaredUnique(schema, f);
        }
      }
    }
    out
  }

  /** Dumping a loaded document drops exactly the keys of the load-only
      fields, here named by `hidden`. */
  lemma DumpAfterLoad(schema: Schema, input: Doc, hidden: set<string>)
    requires Load(schema, input).Ok?
    requires forall f :: f in schema ==> (f.loadOnly <==> f.name in hidden)
    ensures Dump(schema, input) == input - hidden
  {
    var out := Dump(schema, input);
    forall k | k in input ensures k in out <==> k !in hidden {
      DumpKey(schema, input, k);
    }
    assert out.Keys == (input - hidden).Keys;
  }

    /** A required, loadable field of an accepted document is present and conforms. */
  lemma LoadedField(schema: Schema, input: Doc, f: Field)
    requires Load(schema, input).Ok?
    requires f in schema && !f.dumpOnly && f.required
    ensures f.name in input && Conforms(f, input[f.name])
  {
  }

  // ---------------------------------------------------------------------
  // UserSchema

  /** UserSchema declares each of its five field names once. */
  lemma UserNamesUnique()
    ensures NamesUnique(UserSchema)
  {
  }

  /** A loaded user carries `username`, `email`, `password` and `role`, all
      strings, the password at most 100 characters and the others at most 250. */
  lemma UserLoadRequiresFields(input: Doc)
    requires Load(UserSchema, input).Ok?
    ensures "username" in input && input["username"].JStr? && |input["username"].s| <= 250
    ensures "email" in input && input["email"].JStr? && |input["email"].s| <= 250
    ensures "password" in input && input["password"].JStr? && |input["password"].s| <= 100
    ensures "role" in input && input["role"].JStr? && |input["role"].s| <= 250
  {
    LoadedField(UserSchema, input, UserSchema[1]);
    LoadedField(UserSchema, input, UserSchema[2]);
    LoadedField(UserSchema, input, UserSchema[3]);
    LoadedField(UserSchema, input, UserSchema[4]);
  }

  /** Load accepts any document of exactly those four strings within those bounds. */
  lemma UserLoadAcceptsFields(doc: Doc)
    requires doc.Keys == {"username", "email", "password", "role"}
    requires forall k :: k in doc ==> doc[k].JStr?
    requires |doc["username"].s| <= 250 && |doc["email"].s| <= 250
    requires |doc["password"].s| <= 100 && |doc["role"].s| <= 250
    ensures Load(UserSchema, doc) == Ok(doc)
  {
    assert forall k :: k in doc ==> Loadable(UserSchema, k) by {
      forall k | k in doc ensures Loadable(UserSchema, k) {
        UserInputKey(k);
      }
    }
    assert forall f :: f in UserSchema && !f.dumpOnly ==> f.name in doc && Conforms(f, doc[f.name]) by {
      forall f | f in UserSchema && !f.dumpOnly ensures f.name in doc && Conforms(f, doc[f.name]) {
        UserFieldCases(f);
        if f == UserSchema[1] {
          assert "username" in doc.Keys;
        } else if f == UserSchema[2] {
          assert "email" in doc.Keys;
        } else if f == UserSchema[3] {
          assert "password" in doc.Keys;
        } else {
          assert "role" in doc.Keys;
        }
      }
    }
    assert Accepts(UserSchema, doc);
  }

  /** The four input keys are ones UserSchema loads. */
  lemma UserInputKey(k: string)
    requires k == "username" || k == "email" || k == "password" || k == "role"
    ensures Loadable(UserSchema, k)
  {
    assert Declared(UserSchema, "username") == Some(UserSchema[1]);
    assert Declared(UserSchema, "email") == Some(UserSchema[2]);
    assert Declared(UserSchema, "password") == Some(UserSchema[3]);
    assert Declared(UserSchema, "role") == Some(UserSchema[4]);
  }

  /** Only `password` is load-only and only `id` is dump-only in UserSchema. */
  lemma UserFieldCases(f: Field)
    requires f in UserSchema
    ensures f.loadOnly <==> f.name == "password"
    ensures f.dumpOnly <==> f.name == "id"
    ensures !f.dumpOnly ==> f == UserSchema[1] || f == UserSchema[2] || f == UserSchema[3] || f == UserSchema[4]
  {
  }

  /** Every key of a loaded document is one the schema loads. */
  lemma LoadedKey(schema: Schema, input: Doc, k: string)
    requires Load(schema, input).Ok? && k in input
    ensures Loadable(schema, k) && Load(schema, input).value == input
  {
  }

  /** A loaded document lacks every key the schema does not load. */
  lemma LoadedKeysOnly(schema: Schema, input: Doc, k: string)
    requires Load(schema, input).Ok? && !Loadable(schema, k)
    ensures k !in input
  {
  }

  /** A key the schema does not load makes the whole load fail. */
  lemma UnloadableKeyRefused(schema: Schema, input: Doc, k: string)
    requires k in input && !Loadable(schema, k)
    ensures Load(schema, input).Err?
  {
  }

  /** `id` is dump-only: a document that carries it is refused, so it is never
      taken from input. */
  lemma UserLoadNeverTakesId(input: Doc)
    requires "id" in input
    ensures Load(UserSchema, input).Err?
  {
    assert Declared(UserSchema, "id") == Some(UserSchema[0]);
    UnloadableKeyRefused(UserSchema, input, "id");
  }

  /** `password` is load-only: it never appears in dumped output. */
  lemma PasswordNeverDumped(obj: Doc)
    ensures "password" !in Dump(UserSchema, obj)
  {
    assert Declared(UserSchema, "password") == Some(UserSchema[3]);
    DumpKey(UserSchema, obj, "password");
  }

  /** Dumping what was loaded gives it back without the password. */
  lemma UserDumpAfterLoad(input: Doc)
    requires Load(UserSchema, input).Ok?
    ensures Dump(UserSchema, Load(UserSchema, input).value) == input - {"password"}
  {
    forall f | f in UserSchema ensures f.loadOnly <==> f.name in {"password"} {
      UserFieldCases(f);
    }
    DumpAfterLoad(UserSchema, input, {"password"});
  }

  // ---------------------------------------------------------------------
  // TitleSchema

  /** TitleSchema declares each of its seven field names once. */
  lemma TitleNamesUnique()
    ensures NamesUnique(TitleSchema)
  {
  }

  /** In TitleSchema nothing is load-only, and exactly `id`, `user_id` and
      `message` are dump-only. */
  lemma TitleFieldCases(f: Field)
    requires f in TitleSchema
    ensures !f.loadOnly
    ensures f.dumpOnly <==> f.name in {"id", "user_id", "message"}
  {
  }

  /** A loaded title carries `title_name`, `title_type` and `title_status` as
      strings of at most 250 characters, and an integer `rating`. */
  lemma TitleLoadRequiresFields(input: Doc)
    requires Load(TitleSchema, input).Ok?
    ensures "title_name" in input && input["title_name"].JStr? && |input["title_name"].s| <= 250
    ensures "title_type" in input && input["title_type"].JStr? && |input["title_type"].s| <= 250
    ensures "title_status" in input && input["title_status"].JStr? && |input["title_status"].s| <= 250
    ensures "rating" in input && input["rating"].JInt?
  {
    LoadedField(TitleSchema, input, TitleSchema[2]);
    LoadedField(TitleSchema, input, TitleSchema[3]);
    LoadedField(TitleSchema, input, TitleSchema[4]);
    LoadedField(TitleSchema, input, TitleSchema[5]);
  }

  lemma TitleOutputOnly()
    ensures !Loadable(TitleSchema, "id")
    ensures !Loadable(TitleSchema, "user_id")
    ensures !Loadable(TitleSchema, "message")
  {
    assert Declared(TitleSchema, "id") == Some(TitleSchema[0]);
    assert Declared(TitleSchema, "user_id") == Some(TitleSchema[1]);
    TitleMessageDeclared();
  }

  /** `message` is TitleSchema's seventh declared field: the search passes
      the six fields before it. */
  lemma TitleMessageDeclared()
    ensures Declared(TitleSchema, "message") == Some(TitleSchema[6])
  {
    var s := TitleSchema;
    assert Declared(s[6..], "message") == Some(s[6]);
    assert s[5..][1..] == s[6..] && s[4..][1..] == s[5..] && s[3..][1..] == s[4..];
    assert s[2..][1..] == s[3..] && s[1..][1..] == s[2..];
  }

  /** `id`, `user_id` and `message` are output-only: none is ever loaded. */
  lemma TitleLoadNeverTakesOutputFields(input: Doc)
    requires Load(TitleSchema, input).Ok?
    ensures "id" !in input && "user_id" !in input && "message" !in input
  {
    TitleOutputOnly();
    LoadedKeysOnly(TitleSchema, input, "id");
    LoadedKeysOnly(TitleSchema, input, "user_id");
    LoadedKeysOnly(TitleSchema, input, "message");
  }

  /** TitleSchema has no load-only field: a loaded title dumps back whole. */
  lemma TitleDumpAfterLoad(input: Doc)
    requires Load(TitleSchema, input).Ok?
    ensures Dump(TitleSchema, Load(TitleSchema, input).value) == input
  {
    forall f | f in TitleSchema ensures f.loadOnly <==> f.name in {} {
      TitleFieldCases(f);
    }
    DumpAfterLoad(TitleSchema, input, {});
    assert input - {} == input;
  }

  // ---------------------------------------------------------------------
  // AuthSchema

  /** AuthSchema declares its two field names once. */
  lemma AuthNamesUnique()
    ensures NamesUnique(AuthSchema)
  {
  }

  /** The token response carries nothing but `access_token` and `message`. */
  lemma AuthDumpKeys(obj: Doc)
    ensures Dump(AuthSchema, obj).Keys <= {"access_token", "message"}
  {
  }

  /** Both fields are dump-only: only the empty document loads. */
  lemma AuthLoadOnlyEmpty(input: Doc)
    ensures Load(AuthSchema, input).Ok? <==> input == map[]
  {
  }
}
