/** The JSON-Schema (draft-07) export of the database tables: one object
    schema per table, built from the table's ordered columns, and a combined
    schema whose properties are arrays of such objects. */
module SchemaExport {
  import opened Base
  import opened PyDict

  /** The JSON-Schema dialect every generated schema declares in `$schema`. */
  datatype Dialect = Draft07

  function DialectUri(d: Dialect): string {
    "http://json-schema.org/draft-07/schema#"
  }

  /** The JSON-Schema type names the export uses. */
  datatype JsonKind = Number | String | Boolean | Object | Null | Array

  function KindName(k: JsonKind): string {
    match k
    case Number => "number"
    case String => "string"
    case Boolean => "boolean"
    case Object => "object"
    case Null => "null"
    case Array => "array"
  }

  /** The class of a peewee field. `OtherField(name)` is a class by its
      name; it may also name a class listed here, and is then looked up as
      that class, since the export keys on the class name alone. */
  datatype FieldClass =
    | IntegerField | DateTimeField | DateField | CharField | TextField | BooleanField | JsonField
    | ForeignKeyField | DeferredForeignKey | OtherField(name: string)

  /** `type(value).__name__`. */
  function ClassName(c: FieldClass): string {
    match c
    case IntegerField => "IntegerField"
    case DateTimeField => "DateTimeField"
    case DateField => "DateField"
    case CharField => "CharField"
    case TextField => "TextField"
    case BooleanField => "BooleanField"
    case JsonField => "JsonField"
    case ForeignKeyField => "ForeignKeyField"
    case DeferredForeignKey => "DeferredForeignKey"
    case OtherField(name) => name
  }

  /** TYPE_MAP: the JSON type of each class name it lists. */
  function TypeMap(c: FieldClass): Option<JsonKind> {
    var name := ClassName(c);
    if name == "IntegerField" then Some(Number)
    else if name == "DateTimeField" || name == "DateField" || name == "CharField" || name == "TextField" then Some(String)
    else if name == "BooleanField" then Some(Boolean)
    else if name == "JsonField" then Some(Object)
    else None
  }

  /** The type of a foreign-key column: the referenced row's key, or null. */
  const FOREIGN_KEY_TYPES: seq<JsonKind> := [String, Null, Number]

  function IsForeignKey(c: FieldClass): bool {
    ClassName(c) == "ForeignKeyField" || ClassName(c) == "DeferredForeignKey"
  }

  /** A field class is mapped by its name alone: a class given by name maps
      as the listed class of that name, and every listed class except the
      two foreign keys has a TYPE_MAP entry. */
  lemma ByName(c: FieldClass)
    ensures TypeMap(OtherField(ClassName(c))) == TypeMap(c)
    ensures IsForeignKey(OtherField(ClassName(c))) == IsForeignKey(c)
    ensures !c.OtherField? ==> (IsForeignKey(c) <==> TypeMap(c).None?)
  {
  }

  /** What DEFAULTS_MAP turns `datetime.datetime.now` into. */
  const NOW_DEFAULT := "NOW()"

  /** A Python value a column can default to, by its representation when it
      is not a string, an integer or a boolean: `Other` stands for any other
      hashable object, `Unhashable` for a list, a dict or a set. */
  datatype Value = Str(s: string) | Num(n: int) | Bool(b: bool) | Other(repr: string) | Unhashable(repr: string)

  /** A column default: the `datetime.datetime.now` callable, or a constant. */
  datatype Default = CurrentTime | Constant(value: Value)

  /** A peewee field: its class name, `null` flag, `default` (None when the
      column has none) and `help_text` (None when it was not given). */
  datatype Field = Field(fieldType: FieldClass, nullable: bool, default: Option<Default>, helpText: Option<string>)

  /** A peewee model: table name, class name, docstring and the ordered
      `_meta.columns` dictionary. */
  datatype Table = Table(tableName: string, className: string, doc: Option<string>, columns: Dict<string, Field>)

  /** A JSON-Schema `type`: one name, or a list of alternatives. */
  datatype JsonType = Single(kind: JsonKind) | Union(kinds: seq<JsonKind>)

  /** One entry of `properties`; `default` is absent when None. */
  datatype Property = Property(typ: JsonType, description: string, default: Option<Value>)

  datatype ModelSchema = ModelSchema(
    dialect: Dialect, title: string, description: string, typ: JsonKind,
    properties: Dict<string, Property>, required: seq<string>)

  /** `{"type": "array", "items": schema}`. */
  datatype ArrayOf = ArrayOf(typ: JsonKind, items: ModelSchema)

  datatype CombinedSchema = CombinedSchema(
    dialect: Dialect, title: string, typ: JsonKind,
    properties: Dict<string, ArrayOf>, required: seq<string>)

  /** The exceptions `generate_model_schema` can raise: `.replace` on a
      missing docstring or help text (AttributeError), a field class
      TYPE_MAP does not know (KeyError), and a default that cannot be
      looked up in DEFAULTS_MAP because it is unhashable (TypeError). */
  datatype SchemaError = NoDocstring | NoHelpText(column: string) | UnmappedType(fieldType: FieldClass)
                       | UnhashableDefault(column: string)

  // ---------------------------------------------------------------------------
  // The specification of one table's schema

  /** `s.replace("\n", " ")`. */
  function OneLine(s: string): (r: string)
    ensures |r| == |s| && '\n' !in r
    ensures forall i :: 0 <= i < |s| ==> r[i] == if s[i] == '\n' then ' ' else s[i]
  {
    seq(|s|, i requires 0 <= i < |s| => if s[i] == '\n' then ' ' else s[i])
  }

  function Title(t: Table): string {
    t.tableName + " (" + t.className + ")"
  }

  /** A column the schema describes: not `id`, and named in `columns` when
      that list is given. */
  function Selected(columns: Option<seq<string>>): string -> bool {
    (key: string) => key != "id" && (columns.None? || key in columns.value)
  }

  /** The described columns, in table order. */
  function Included(t: Table, columns: Option<seq<string>>): seq<string> {
    Keep(t.columns.keys, Selected(columns))
  }

  /** A column whose `null` flag is False. */
  function NotNull(t: Table): string -> bool {
    (key: string) => HasKey(t.columns, key) && !Get(t.columns, key).nullable
  }

  function TypeOf(fieldType: FieldClass): Result<JsonType, SchemaError> {
    if IsForeignKey(fieldType) then Ok(Union(FOREIGN_KEY_TYPES))
    else if TypeMap(fieldType).Some? then Ok(Single(TypeMap(fieldType).value))
    else Err(UnmappedType(fieldType))
  }

  /** A default `DEFAULTS_MAP.get` can look up. */
  predicate Hashable(d: Default) {
    d.CurrentTime? || !d.value.Unhashable?
  }

  /** `DEFAULTS_MAP.get(default, default)` on a hashable default. */
  function DefaultValue(d: Default): Value {
    match d
    case CurrentTime => Str(NOW_DEFAULT)
    case Constant(v) => v
  }

  /** A column whose property can be built: its field class has a JSON type,
      it has a help text, and its default, if any, is hashable. */
  predicate Buildable(f: Field) {
    (IsForeignKey(f.fieldType) || TypeMap(f.fieldType).Some?) && f.helpText.Some? &&
    (f.default.Some? ==> Hashable(f.default.value))
  }

  /** The property of one column, or the exception building it raises: the
      type is looked up, then the help text is read, then the default is
      looked up. */
  function PropertyOf(name: string, f: Field): (r: Result<Property, SchemaError>)
    ensures r.Ok? <==> Buildable(f)
    ensures r.Err? ==> r.error == (if !IsForeignKey(f.fieldType) && TypeMap(f.fieldType).None? then UnmappedType(f.fieldType)
                                   else if f.helpText.None? then NoHelpText(name)
                                   else UnhashableDefault(name))
  {
    var t := TypeOf(f.fieldType);
    if t.Err? then Err(t.error)
    else if f.helpText.None? then Err(NoHelpText(name))
    else if f.default.Some? && !Hashable(f.default.value) then Err(UnhashableDefault(name))
    else Ok(Property(t.value, OneLine(f.helpText.value), if f.default.Some? then Some(DefaultValue(f.default.value)) else None))
  }

  /** Every name in `keys` is a column of `t`. */
  ghost predicate AllColumns(t: Table, keys: seq<string>) {
    forall i :: 0 <= i < |keys| ==> HasKey(t.columns, keys[i])
  }

  datatype Built = Built(properties: Dict<string, Property>, required: seq<string>)

  /** The loop over the copied columns, with `make` building each property:
      the properties and the required names of the columns `keys`, taken in
      order, or the exception of the first column that fails. (A name that
      is not a column contributes nothing; the exporter passes only
      columns.) */
  function Build(t: Table, keys: seq<string>, make: (string, Field) -> Result<Property, SchemaError>): Result<Built, SchemaError>
    decreases |keys|
  {
    if keys == [] then Ok(Built(Dict([], map[]), []))
    else
      var prev := Build(t, keys[..|keys| - 1], make);
      var key := keys[|keys| - 1];
      if prev.Err? || !HasKey(t.columns, key) then prev
      else
        var f := Get(t.columns, key);
        var p := make(key, f);
        if p.Err? then Err(p.error)
        else Ok(Built(Assign(prev.value.properties, key, p.value), if f.nullable then prev.value.required else prev.value.required + [key]))
  }

  /** One more column: the fold adds its property and, when it is not
      nullable, its name; or stops with its exception. */
  lemma BuildStep(t: Table, keys: seq<string>, make: (string, Field) -> Result<Property, SchemaError>, n: nat)
    requires n < |keys| && HasKey(t.columns, keys[n]) && Build(t, keys[..n], make).Ok?
    ensures var b, key := Build(t, keys[..n], make).value, keys[n];
      var f := Get(t.columns, key); var p := make(key, f);
      Build(t, keys[..n + 1], make) ==
        if p.Err? then Err(p.error)
        else Ok(Built(Assign(b.properties, key, p.value), if f.nullable then b.required else b.required + [key]))
  {
    assert keys[..n + 1][..n] == keys[..n];
  }

  lemma IncludedColumns(t: Table, columns: Option<seq<string>>)
    requires WellFormed(t.columns)
    ensures AllColumns(t, Included(t, columns)) && Distinct(Included(t, columns))
  {
    var keys := Included(t, columns);
    forall i | 0 <= i < |keys| ensures HasKey(t.columns, keys[i]) {
      assert keys[i] in keys;
    }
  }

  /** The schema of a table, or the first exception raised building it. */
  function Described(t: Table, columns: Option<seq<string>>): Result<ModelSchema, SchemaError>
    requires WellFormed(t.columns)
  {
    var b := Build(t, Included(t, columns), PropertyOf);
    if t.doc.None? then Err(NoDocstring)
    else if b.Err? then Err(b.error)
    else Ok(ModelSchema(Draft07, Title(t), OneLine(t.doc.value), Object, b.value.properties, b.value.required))
  }

  /** The fold succeeds exactly when every column's property can be
      built. */
  lemma {:induction false} BuildOk(t: Table, keys: seq<string>, make: (string, Field) -> Result<Property, SchemaError>)
    requires AllColumns(t, keys)
    ensures Build(t, keys, make).Ok? <==> forall i :: 0 <= i < |keys| ==> make(keys[i], Get(t.columns, keys[i])).Ok?
    decreases |keys|
  {
    if keys != [] {
      var n := |keys| - 1;
      var init := keys[..n];
      assert AllColumns(t, init);
      BuildOk(t, init, make);
      BuildOkStep(t, keys, make, n);
      assert keys[..n + 1] == keys;
      assert (forall i :: 0 <= i < n ==> make(init[i], Get(t.columns, init[i])).Ok?) <==>
             (forall i :: 0 <= i < n ==> make(keys[i], Get(t.columns, keys[i])).Ok?);
    }
  }

  /** One more column succeeds exactly when the prefix did and its own
      property can be built. */
  lemma BuildOkStep(t: Table, keys: seq<string>, make: (string, Field) -> Result<Property, SchemaError>, n: nat)
    requires n < |keys| && HasKey(t.columns, keys[n])
    ensures Build(t, keys[..n + 1], make).Ok? <==>
      Build(t, keys[..n], make).Ok? && make(keys[n], Get(t.columns, keys[n])).Ok?
  {
    assert keys[..n + 1][..n] == keys[..n];
  }

  /** A fold that succeeds has the columns, in order, as its properties,
      each built from its field, and the non-nullable ones, in order, as its
      required list. */
  lemma {:induction false} BuildShape(t: Table, keys: seq<string>, make: (string, Field) -> Result<Property, SchemaError>)
    requires AllColumns(t, keys) && Distinct(keys) && Build(t, keys, make).Ok?
    ensures var b := Build(t, keys, make).value;
      WellFormed(b.properties) && b.properties.keys == keys && b.required == Keep(keys, NotNull(t)) &&
      forall key :: HasKey(b.properties, key) ==> HasKey(t.columns, key) && make(key, Get(t.columns, key)) == Ok(Get(b.properties, key))
    decreases |keys|
  {
    if keys != [] {
      var n := |keys| - 1;
      var init, key := keys[..n], keys[n];
      assert AllColumns(t, init) && Distinct(init);
      BuildShape(t, init, make);
      BuildStep(t, keys, make, n);
      SplitLast(keys);
      KeepSnoc(init, key, NotNull(t));
      NotInPrefix(keys, n);
    }
  }

  /** The columns whose property `make` cannot build. */
  function FailsWith(t: Table, make: (string, Field) -> Result<Property, SchemaError>): string -> bool {
    (key: string) => HasKey(t.columns, key) && make(key, Get(t.columns, key)).Err?
  }

  /** A failing fold reports the first column that cannot be built. */
  lemma {:induction false} BuildErr(t: Table, keys: seq<string>, make: (string, Field) -> Result<Property, SchemaError>)
    requires AllColumns(t, keys) && Build(t, keys, make).Err?
    ensures var q := FirstMatch(keys, FailsWith(t, make));
      q < |keys| && Build(t, keys, make).error == make(keys[q], Get(t.columns, keys[q])).error
    decreases |keys|
  {
    var n := |keys| - 1;
    var init := keys[..n];
    assert AllColumns(t, init);
    if Build(t, init, make).Err? {
      BuildErr(t, init, make);
      FirstMatchPrefix(keys, FailsWith(t, make), n);
    } else {
      BuildOk(t, init, make);
      BuildStep(t, keys, make, n);
      forall i | 0 <= i < n ensures !FailsWith(t, make)(keys[i]) {
        assert init[i] == keys[i];
      }
      FirstMatchAt(keys, FailsWith(t, make), n);
    }
  }

  /** Once the fold fails on a prefix, the rest of the columns change
      nothing. */
  lemma {:induction false} BuildStops(t: Table, keys: seq<string>, make: (string, Field) -> Result<Property, SchemaError>, n: nat)
    requires n <= |keys| && Build(t, keys[..n], make).Err?
    ensures Build(t, keys, make) == Build(t, keys[..n], make)
    decreases |keys|
  {
    if n < |keys| {
      var init := keys[..|keys| - 1];
      assert init[..n] == keys[..n];
      BuildStops(t, init, make, n);
    } else {
      assert keys[..n] == keys;
    }
  }

  // ---------------------------------------------------------------------------
  // generate_model_schema

  /** Builds the schema of `table` describing `columns` (every column when
      None): the columns are first copied in table order, then each becomes
      a property, and the non-nullable ones are listed as required. */
  method GenerateModelSchema(table: Table, columns: Option<seq<string>>) returns (r: Result<ModelSchema, SchemaError>)
    requires WellFormed(table.columns)
    ensures r == Described(table, columns)
  {
    var cols := SelectColumns(table, columns);
    if table.doc.None? {
      return Err(NoDocstring);
    }
    var keys := cols.keys;
    IncludedColumns(table, columns);
    var props: Dict<string, Property> := Dict([], map[]);
    var required: seq<string> := [];
    var n := 0;
    while n < |keys|
      invariant n <= |keys|
      invariant Build(table, keys[..n], PropertyOf) == Ok(Built(props, required))
    {
      var key := keys[n];
      var f := Get(cols, key);
      BuildStep(table, keys, PropertyOf, n);
      var t := TypeOf(f.fieldType);
      if t.Err? {
        BuildStops(table, keys, PropertyOf, n + 1);
        return Err(t.error);
      }
      if f.helpText.None? {
        BuildStops(table, keys, PropertyOf, n + 1);
        return Err(NoHelpText(key));
      }
      var prop := Property(t.value, OneLine(f.helpText.value), None);
      if f.default.Some? {
        if !Hashable(f.default.value) {
          BuildStops(table, keys, PropertyOf, n + 1);
          return Err(UnhashableDefault(key));
        }
        prop := prop.(default := Some(DefaultValue(f.default.value)));
      }
      props := Assign(props, key, prop);
      if !f.nullable {
        required := required + [key];
      }
      n := n + 1;
    }
    assert keys[..n] == keys;
    r := Ok(ModelSchema(Draft07, Title(table), OneLine(table.doc.value), Object, props, required));
  }

  /** The loop that copies the selected columns, except `id`, into `cols`,
      in table order. */
  method SelectColumns(table: Table, columns: Option<seq<string>>) returns (cols: Dict<string, Field>)
    requires WellFormed(table.columns)
    ensures WellFormed(cols) && cols.keys == Included(table, columns)
    ensures forall key :: HasKey(cols, key) ==> HasKey(table.columns, key) && Get(cols, key) == Get(table.columns, key)
  {
    var keys := table.columns.keys;
    cols := Dict([], map[]);
    var n := 0;
    while n < |keys|
      invariant SelectedUpTo(table, columns, n, cols)
    {
      SelectStep(table, columns, n, cols);
      var key := keys[n];
      if key != "id" && (columns.None? || key in columns.value) {
        cols := Assign(cols, key, Get(table.columns, key));
      }
      n := n + 1;
    }
    assert keys[..n] == keys;
  }

  ghost predicate SelectedUpTo(table: Table, columns: Option<seq<string>>, n: nat, cols: Dict<string, Field>) {
    WellFormed(table.columns) && n <= |table.columns.keys| &&
    WellFormed(cols) && cols.keys == Keep(table.columns.keys[..n], Selected(columns)) &&
    forall key :: HasKey(cols, key) ==> HasKey(table.columns, key) && Get(cols, key) == Get(table.columns, key)
  }

  lemma SelectStep(table: Table, columns: Option<seq<string>>, n: nat, cols: Dict<string, Field>)
    requires SelectedUpTo(table, columns, n, cols) && n < |table.columns.keys|
    ensures var key := table.columns.keys[n];
      HasKey(table.columns, key) &&
      SelectedUpTo(table, columns, n + 1, if Selected(columns)(key) then Assign(cols, key, Get(table.columns, key)) else cols)
  {
    var keys := table.columns.keys;
    var key := keys[n];
    assert key in keys;
    assert keys[..n + 1] == keys[..n] + [key];
    KeepSnoc(keys[..n], key, Selected(columns));
    NotInPrefix(keys, n);
  }

  // ---------------------------------------------------------------------------
  // What the schema of a table promises

  /** The properties are exactly the selected columns other than `id`, in
      table order; names in `columns` that are not columns are ignored. */
  lemma SchemaColumns(t: Table, columns: Option<seq<string>>)
    requires WellFormed(t.columns) && Described(t, columns).Ok?
    ensures var s := Described(t, columns).value;
      WellFormed(s.properties) && s.properties.keys == Keep(t.columns.keys, Selected(columns)) &&
      forall key :: HasKey(s.properties, key) <==>
        HasKey(t.columns, key) && key != "id" && (columns.None? || key in columns.value)
  {
    IncludedColumns(t, columns);
    BuildShape(t, Included(t, columns), PropertyOf);
  }

  /** `required` is the non-nullable properties, in property order, so every
      required name is a property. */
  lemma SchemaRequired(t: Table, columns: Option<seq<string>>)
    requires WellFormed(t.columns) && Described(t, columns).Ok?
    ensures var s := Described(t, columns).value;
      IsSubseq(s.required, s.properties.keys) &&
      forall key :: key in s.required <==> HasKey(s.properties, key) && NotNull(t)(key)
  {
    IncludedColumns(t, columns);
    BuildShape(t, Included(t, columns), PropertyOf);
  }

  /** A built property's type follows the field class, and its default the
      column default. */
  predicate Typed(f: Field, p: Property) {
    (IsForeignKey(f.fieldType) ==> p.typ == Union([String, Null, Number])) &&
    (!IsForeignKey(f.fieldType) ==> TypeMap(f.fieldType).Some? && p.typ == Single(TypeMap(f.fieldType).value)) &&
    (p.default.Some? <==> f.default.Some?) &&
    (f.default == Some(CurrentTime) ==> p.default == Some(Str("NOW()"))) &&
    (f.default.Some? && f.default.value.Constant? ==> p.default == Some(f.default.value.value))
  }

  lemma PropertyTyped(name: string, f: Field)
    requires PropertyOf(name, f).Ok?
    ensures Typed(f, PropertyOf(name, f).value)
  {
  }

  /** Each property's type and default follow the column's field class and
      default. */
  lemma SchemaTypes(t: Table, columns: Option<seq<string>>)
    requires WellFormed(t.columns) && Described(t, columns).Ok?
    ensures var s := Described(t, columns).value;
      forall key | HasKey(s.properties, key) && HasKey(t.columns, key) :: Typed(Get(t.columns, key), Get(s.properties, key))
  {
    IncludedColumns(t, columns);
    BuildShape(t, Included(t, columns), PropertyOf);
    var s := Described(t, columns).value;
    forall key | HasKey(s.properties, key) && HasKey(t.columns, key)
      ensures Typed(Get(t.columns, key), Get(s.properties, key))
    {
      PropertyTyped(key, Get(t.columns, key));
    }
  }

  /** The title names the table and the class, and no description holds a
      line break. */
  lemma SchemaText(t: Table, columns: Option<seq<string>>)
    requires WellFormed(t.columns) && Described(t, columns).Ok?
    ensures var s := Described(t, columns).value;
      s.title == t.tableName + " (" + t.className + ")" && s.dialect == Draft07 && s.typ == Object &&
      '\n' !in s.description && forall key | HasKey(s.properties, key) :: '\n' !in Get(s.properties, key).description
  {
    IncludedColumns(t, columns);
    BuildShape(t, Included(t, columns), PropertyOf);
  }

  /** The schema is built exactly when the table has a docstring and every
      described column can be built; otherwise the error is the missing
      docstring, or that of the first column that cannot be built. */
  lemma SchemaErrors(t: Table, columns: Option<seq<string>>)
    requires WellFormed(t.columns)
    ensures Described(t, columns).Ok? <==>
      t.doc.Some? && forall key :: key in Included(t, columns) ==> HasKey(t.columns, key) && Buildable(Get(t.columns, key))
    ensures t.doc.None? ==> Described(t, columns) == Err(NoDocstring)
    ensures var keys, r := Included(t, columns), Described(t, columns); var q := FirstMatch(keys, FailsWith(t, PropertyOf));
      t.doc.Some? && r.Err? ==> q < |keys| && r.error == PropertyOf(keys[q], Get(t.columns, keys[q])).error
  {
    var keys := Included(t, columns);
    IncludedColumns(t, columns);
    BuildOk(t, keys, PropertyOf);
    if t.doc.Some? && Build(t, keys, PropertyOf).Err? {
      BuildErr(t, keys, PropertyOf);
    }
  }

  // ---------------------------------------------------------------------------
  // combine_schemas

  /** Wraps each named schema into an array property; every name is
      required, in the order given. */
  method CombineSchemas(title: string, schemas: Dict<string, ModelSchema>) returns (c: CombinedSchema)
    requires WellFormed(schemas)
    ensures c.dialect == Draft07 && c.title == title && c.typ == Object
    ensures WellFormed(c.properties) && c.properties.keys == schemas.keys
    ensures forall key :: HasKey(c.properties, key) <==> HasKey(schemas, key)
    ensures forall key :: HasKey(schemas, key) ==> Get(c.properties, key) == ArrayOf(Array, Get(schemas, key))
    ensures c.required == schemas.keys
  {
    var keys := schemas.keys;
    var props: Dict<string, ArrayOf> := Dict([], map[]);
    var required: seq<string> := [];
    var n := 0;
    while n < |keys|
      invariant n <= |keys| && WellFormed(props) && props.keys == keys[..n] && required == keys[..n]
      invariant forall key :: HasKey(props, key) ==> HasKey(schemas, key) && Get(props, key) == ArrayOf(Array, Get(schemas, key))
    {
      var key := keys[n];
      assert key in keys;
      NotInPrefix(keys, n);
      props := Assign(props, key, ArrayOf(Array, Get(schemas, key)));
      required := required + [key];
      assert keys[..n + 1] == keys[..n] + [key];
      n := n + 1;
    }
    assert keys[..n] == keys;
    return CombinedSchema(Draft07, title, Object, props, required);
  }
}
