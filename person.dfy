/** The `Person` class: a name and an age with the usual constructors, assignment operators
    that guard against self-assignment, getters, setters and a fixed text form. */
module People {

  import opened CppInt
  import Decimal
  import Wrappers

  /** The value a `Person` holds, used where persons are only compared and moved about
      (the vector `custom_sort` sorts). */
  datatype PersonRecord = PersonRecord(name: string, age: int32)

  const DEFAULT_NAME: string := "Unknown"

  class Person {
    var name: string
    var age: int32

    /** `Person()`: an unnamed person of age zero. */
    constructor Default()
      ensures GetName() == DEFAULT_NAME && GetAge() == 0
    {
      name := DEFAULT_NAME;
      age := 0;
    }

    /** `Person(name, age)`: stores exactly what it is given. */
    constructor (name: string, age: int32)
      ensures GetName() == name && GetAge() == age
    {
      this.name := name;
      this.age := age;
    }

    /** `Person(const Person&)`: a new person equal to `other`, which is only read. */
    constructor Copy(other: Person)
      ensures GetName() == other.GetName() && GetAge() == other.GetAge()
    {
      name := other.name;
      age := other.age;
    }

    /** `Person(Person&&)`: takes over `other`'s name and copies its age. A moved-from
        `std::string` is left valid but unspecified, so nothing is promised about `other.name`;
        the model empties it, as common library implementations do. */
    constructor Move(other: Person)
      modifies other
      ensures GetName() == old(other.GetName()) && GetAge() == old(other.GetAge())
      ensures other.GetAge() == old(other.GetAge())
    {
      name := other.name;
      age := other.age;
      new;
      other.name := "";
    }

    /** `operator=(const Person&)`: afterwards this person has `other`'s name and age; assigning
        a person to itself changes nothing. `other` is only read. Returns this object. */
    method CopyAssign(other: Person) returns (self: Person)
      modifies this
      ensures self == this
      ensures name == old(other.name) && age == old(other.age)
      ensures other == this ==> name == old(name) && age == old(age)
    {
      if this != other {
        name := other.name;
        age := other.age;
      }
      self := this;
    }

    /** `operator=(Person&&)`: afterwards this person has `other`'s old name and age; `other`
        keeps its age and its name is left unspecified. Self-move-assignment changes nothing. */
    method MoveAssign(other: Person) returns (self: Person)
      modifies this, other
      ensures self == this
      ensures name == old(other.name) && age == old(other.age)
      ensures other != this ==> other.age == old(other.age)
      ensures other == this ==> name == old(name) && age == old(age)
    {
      if this != other {
        name := other.name;
        other.name := "";
        age := other.age;
      }
      self := this;
    }

    function GetName(): string
      reads this
    {
      name
    }

    function GetAge(): int32
      reads this
    {
      age
    }

    /** `setName`: replaces the name; the age stays. */
    method SetName(newName: string)
      modifies this
      ensures GetName() == newName && GetAge() == old(GetAge())
    {
      name := newName;
    }

    /** `setAge`: replaces the age; the name stays. */
    method SetAge(newAge: int32)
      modifies this
      ensures GetAge() == newAge && GetName() == old(GetName())
    {
      age := newAge;
    }

    /** `toString()`: "Name: ", the name, ", Age: ", then the age in decimal. The name and the age
        can be read back from the result: the age is the decimal number that closes it, written
        without leading zeros and without "-0". */
    function ToString(): (r: string)
      reads this
      ensures |r| > 13 + |name|
      ensures r[..6] == "Name: " && r[6..6 + |name|] == name
      ensures r[6 + |name|..13 + |name|] == ", Age: "
      ensures Decimal.ParseInt(r[13 + |name|..]) == Wrappers.Some(age as int)
      ensures r[13 + |name|] == '-' <==> age < 0
      ensures r[13 + |name|] == '0' ==> r[13 + |name|..] == "0"
      ensures r[13 + |name|] == '-' ==> |r| > 14 + |name| && r[14 + |name|] != '0'
    {
      Decimal.IntToStringRoundTrip(age as int);
      var r := "Name: " + name + ", Age: " + Decimal.IntToString(age as int);
      assert r[13 + |name|..] == Decimal.IntToString(age as int);
      r
    }
  }

  /** Two persons with the same name but different ages print differently. */
  lemma ToStringDistinguishesAges(p: Person, q: Person)
    requires p.name == q.name && p.age != q.age
    ensures p.ToString() != q.ToString()
  {
  }
}
