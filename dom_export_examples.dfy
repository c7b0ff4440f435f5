/**
 * Worked examples of the entry format: a namespace `Models` holding class
 * `User`, whose properties are `name: string` and `addresses`, an array of
 * class `Models.Address`, and a private class `Hidden`.
 */
module DomExportExamples {
  import opened CodeDom
  import opened DomExport

  const Models := Scope(Namespace, "Models")
  const User := Scope(Class, "User")
  const Address := Element(Class, "Address", Accessible(Public), [])
  const AddressArray := CodeType("Address", true, NoCollection, Some(Definition(Address, [Models])))
  const Hidden := Element(Class, "Hidden", Accessible(Private), [])
  const HiddenArray := CodeType("Hidden", true, NoCollection, Some(Definition(Hidden, [Models])))

  /** The entry of a public property whose parent is `User` inside `Models`. */
  lemma UserPropertyEntry(name: string, t: TypeRef)
    ensures Entry(Element(Property(t), name, Accessible(Public), []), [Models, User], false)
            == "Models.User" + "::" + name + ":" + EntryType(t)
  {
    PropertyEntryFormat([], Models, [User], Element(Property(t), name, Accessible(Public), []), t);
    assert DottedNames([User]) == ".User";
  }

  lemma UserPathExample()
    ensures EntryPath(User, [Models]) == "Models.User"
  {
  }

  /** A primitive property: `Models.User::name:string`. */
  lemma UserNameExample()
    ensures Entry(Element(Property(CodeType("string", false, NoCollection, None)), "name", Accessible(Public), []),
                  [Models, User], false) == "Models.User::name:string"
  {
    UserPropertyEntry("name", CodeType("string", false, NoCollection, None));
  }

  /** An array of a user-defined class is its definition's path in brackets. */
  lemma AddressArrayExample()
    ensures EntryType(AddressArray) == "[Models.Address]"
  {
    assert EntryPath(ScopeOf(Address), [Models]) == "Models.Address";
  }

  /** `Models.User::addresses:[Models.Address]`. */
  lemma AddressesExample()
    ensures Entry(Element(Property(AddressArray), "addresses", Accessible(Public), []), [Models, User], false)
            == "Models.User::addresses:[Models.Address]"
  {
    UserPropertyEntry("addresses", AddressArray);
    AddressArrayExample();
    AddressesLiteral();
  }

  /** The pieces of the `addresses` entry, written out. */
  lemma AddressesLiteral()
    ensures "Models.User" + "::" + "addresses" + ":" + "[Models.Address]" == "Models.User::addresses:[Models.Address]"
  {
    var a, b := "Models.User::", "addresses:";
    assert "Models.User" + "::" == a;
    assert a + "addresses" + ":" == a + b;
    assert a + b + "[Models.Address]" == "Models.User::addresses:[Models.Address]";
  }

  /**
   * A public property of a private class still has an entry whose path runs
   * through that class; a reference to the private class formats as `[]`.
   */
  lemma PrivateClassExample()
    ensures Entry(Element(Property(HiddenArray), "items", Accessible(Public), []), [Models, ScopeOf(Hidden)], false)
            == "Models.Hidden::items:[]"
  {
    assert EntryPath(ScopeOf(Hidden), [Models]) == "Models.Hidden";
  }
}
