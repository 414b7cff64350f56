/**
 * The string logic of farconf/serialize.py: a class or function is named by
 * the text "module:qualname", and reading such a name back splits it into
 * the module to import and the chain of attributes to walk.
 */
module Serialize {
  import opened Values
  import opened Strings

  datatype SerializeError =
    | MainModule  // defined in `__main__`, which differs from run to run
    | Ephemeral   // a local class or function, or a lambda

  /** What `deserialize_class_or_function` imports and then walks with getattr. */
  datatype QualifiedName = QualifiedName(moduleName: string, attrs: seq<string>)

  /** The two-way unpacking of `value.split(":")` failed: the text held this many colons. */
  datatype NameError = WrongColonCount(colons: nat)

  /** A name Python gives only to objects that cannot be found again by import. */
  predicate Marked(s: string)
  {
    Contains(s, "<locals>") || Contains(s, "<lambda>")
  }

  /** `serialize_class_or_function`, given the object's `__module__` and `__qualname__`. */
  function SerializeClassOrFunction(moduleName: string, qualname: string): Result<string, SerializeError>
  {
    if moduleName == "__main__" then Err(MainModule)
    else
      var out := moduleName + ":" + qualname;
      if Marked(out) then Err(Ephemeral) else Ok(out)
  }

  /** The string part of `deserialize_class_or_function`. */
  function SplitName(value: string): Result<QualifiedName, NameError>
  {
    var parts := Split(value, ':');
    if |parts| != 2 then Err(WrongColonCount(|parts| - 1))
    else Ok(QualifiedName(parts[0], Split(parts[1], '.')))
  }

  /**
   * Serialization fails for `__main__`, and for a local or lambda name in
   * either half; otherwise it is the two halves joined by a colon.
   */
  lemma SerializeSpec(moduleName: string, qualname: string)
    ensures SerializeClassOrFunction(moduleName, qualname).Err? <==>
      moduleName == "__main__" || Marked(moduleName) || Marked(qualname)
    ensures moduleName == "__main__" ==> SerializeClassOrFunction(moduleName, qualname) == Err(MainModule)
    ensures moduleName != "__main__" && SerializeClassOrFunction(moduleName, qualname).Err? ==>
      SerializeClassOrFunction(moduleName, qualname) == Err(Ephemeral)
    ensures SerializeClassOrFunction(moduleName, qualname).Ok? ==>
      SerializeClassOrFunction(moduleName, qualname).value == moduleName + ":" + qualname
  {
    ContainsAround(moduleName, ':', qualname, "<locals>");
    ContainsAround(moduleName, ':', qualname, "<lambda>");
    if moduleName == "__main__" {
      assert Marked(moduleName) ==> Contains(moduleName, "<locals>") || Contains(moduleName, "<lambda>");
    }
  }

  /**
   * Reading a name back succeeds exactly when the text holds one colon; the
   * module is the text before it, and the attributes, joined by dots, are the
   * text after it.
   */
  lemma SplitNameSpec(value: string)
    ensures SplitName(value).Ok? <==> Count(value, ':') == 1
    ensures SplitName(value).Err? ==> SplitName(value).error.colons == Count(value, ':')
    ensures SplitName(value).Ok? ==>
      var n := SplitName(value).value;
      && ':' !in n.moduleName
      && |n.attrs| >= 1
      && (forall i :: 0 <= i < |n.attrs| ==> ':' !in n.attrs[i] && '.' !in n.attrs[i])
      && n.moduleName + ":" + Join(n.attrs, '.') == value
  {
    var parts := Split(value, ':');
    SplitCount(value, ':');
    if |parts| == 2 {
      SplitPiecesFree(value, ':');
      SplitPiecesFree(parts[1], '.');
      JoinSplit(parts[1], '.');
      JoinSplit(value, ':');
      var attrs := Split(parts[1], '.');
      SplitKeepsOut(parts[1], '.', ':');
      assert parts[1..] == [parts[1]];
    }
  }

  /** Reading back a serialized name gives the module and the dotted parts of the qualname. */
  lemma NameRoundTrip(moduleName: string, qualname: string)
    requires ':' !in moduleName && ':' !in qualname
    requires SerializeClassOrFunction(moduleName, qualname).Ok?
    ensures SplitName(SerializeClassOrFunction(moduleName, qualname).value)
         == Ok(QualifiedName(moduleName, Split(qualname, '.')))
    ensures Join(Split(qualname, '.'), '.') == qualname
  {
    SplitAfterFirst(moduleName, ':', qualname);
    SplitNoSep(qualname, ':');
    JoinSplit(qualname, '.');
  }
}
