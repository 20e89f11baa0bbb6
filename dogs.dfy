/**
 * The pet shop dogs: a dog has a name, a price and a list of tricks that
 * never holds the same trick twice; a family pet also has a nickname and a
 * show dog a show id.
 */
module Dogs {
  import opened Wrappers

  /** The class variable `kind` that every dog shares. */
  const KIND := "canine"

  /** What distinguishes the two subclasses from a plain dog. */
  datatype Breed = Plain | FamilyPet(nickName: string) | ShowDog(showId: string)

  /** The trick list after teaching `trick`: appended when it is new, unchanged when already known. */
  function WithTrick(tricks: seq<string>, trick: string): (r: seq<string>)
    ensures trick in r
    ensures forall x :: x in r <==> x in tricks || x == trick
    ensures trick in tricks ==> r == tricks
    ensures trick !in tricks ==> |r| == |tricks| + 1 && r[..|tricks|] == tricks && r[|tricks|] == trick
    ensures Distinct(tricks) ==> Distinct(r)
  {
    if trick in tricks then tricks
    else
      var r := tricks + [trick];
      assert r[..|tricks|] == tricks;
      r
  }

  /** The trick list after teaching each of `lessons` in turn. */
  function Taught(tricks: seq<string>, lessons: seq<string>): seq<string> {
    if lessons == [] then tricks
    else WithTrick(Taught(tricks, lessons[..|lessons| - 1]), lessons[|lessons| - 1])
  }

  /** However tricks are taught, starting from no tricks the list holds each lesson exactly once. */
  lemma {:induction false} TaughtDistinct(lessons: seq<string>)
    ensures Distinct(Taught([], lessons))
    ensures forall x :: x in Taught([], lessons) <==> x in lessons
  {
    if lessons != [] {
      var init := lessons[..|lessons| - 1];
      TaughtDistinct(init);
      assert lessons == init + [lessons[|lessons| - 1]];
    }
  }

  /** Teaching keeps the tricks already known, in their order: the old list is a prefix of the new one. */
  lemma {:induction false} TaughtKeepsOrder(tricks: seq<string>, lessons: seq<string>)
    ensures |tricks| <= |Taught(tricks, lessons)| && Taught(tricks, lessons)[..|tricks|] == tricks
  {
    if lessons != [] {
      var before := Taught(tricks, lessons[..|lessons| - 1]);
      TaughtKeepsOrder(tricks, lessons[..|lessons| - 1]);
      var last := lessons[|lessons| - 1];
      if last !in before {
        assert WithTrick(before, last)[..|tricks|] == before[..|tricks|];
      }
    }
  }

  /** The duplicate example: teaching "Sit" twice leaves one trick. */
  lemma SitTwice()
    ensures Taught([], ["Sit", "Sit"]) == ["Sit"]
  {
    assert ["Sit", "Sit"][..1] == ["Sit"];
    assert ["Sit"][..0] == [];
  }

  class Dog {
    var name: string
    var price: real
    var tricks: seq<string>
    const breed: Breed

    /** `Dog(name, price)`: no tricks yet. */
    constructor (name: string := "", price: real := 0.0)
      ensures this.name == name && this.price == price && tricks == [] && breed == Plain
    {
      this.name := name;
      this.price := price;
      tricks := [];
      breed := Plain;
    }

    /** `FamilyPet(name, price, nickName)`: the dog constructor, plus a nickname that defaults to "Buddy". */
    constructor FamilyPet(name: string := "", price: real := 0.0, nickName: string := "Buddy")
      ensures this.name == name && this.price == price && tricks == [] && breed == Breed.FamilyPet(nickName)
    {
      this.name := name;
      this.price := price;
      tricks := [];
      breed := Breed.FamilyPet(nickName);
    }

    /** `ShowDog(name, price, showId)`: the dog constructor, plus a show id that defaults to "9999". */
    constructor ShowDog(name: string := "", price: real := 0.0, showId: string := "9999")
      ensures this.name == name && this.price == price && tricks == [] && breed == Breed.ShowDog(showId)
    {
      this.name := name;
      this.price := price;
      tricks := [];
      breed := Breed.ShowDog(showId);
    }

    /** `add_trick`: `added` is false ("already knows that trick") when the trick is known. */
    method AddTrick(trick: string) returns (added: bool)
      modifies this
      ensures added <==> trick !in old(tricks)
      ensures tricks == WithTrick(old(tricks), trick)
      ensures name == old(name) && price == old(price)
    {
      added := trick !in tricks;
      if added {
        tricks := tricks + [trick];
      }
    }
  }

  /** The default arguments of the subclass constructors. */
  method Defaults() returns (pet: Dog, show: Dog)
    ensures pet.breed == Breed.FamilyPet("Buddy") && show.breed == Breed.ShowDog("9999")
    ensures pet.tricks == [] && show.tricks == []
    ensures pet.name == "" && show.name == "" && pet.price == 0.0 && show.price == 0.0
  {
    pet := new Dog.FamilyPet();
    show := new Dog.ShowDog();
  }
}
