/**
 * Szotar's WordListEntry: one phrase/translation pair, with a reference to the word list that owns
 * it. The owning WordList is abstract (it is backed by a database); it is modelled only as the log of
 * requests an entry sends it, so that the model can say which setters tell the owner and which do not.
 */
module WordLists {
  import opened Wrappers

  /** The entry fields a word list can address. A C# enum variable can hold any integer, so the
      values outside the two named ones are kept as `Undefined`. */
  datatype EntryProperty = Phrase | Translation | Undefined(code: int)

  /** The exceptions an entry throws. */
  datatype Exception = ArgumentNullException | ArgumentException

  datatype Result<T> = Success(value: T) | Failure(error: Exception)

  /** A request an entry makes of its owning list. */
  datatype OwnerCall =
    | StoreProperty(entry: WordListEntry, property: EntryProperty, value: string)
    | InsertAt(index: int, entry: WordListEntry)

  /** The owning word list, reduced to the requests it has received from its entries. */
  class WordList {
    var requests: seq<OwnerCall>

    constructor ()
      ensures requests == []
    {
      requests := [];
    }

    /** Asks the list to store a property of an entry (in its database). */
    method SetProperty(entry: WordListEntry, property: EntryProperty, value: string)
      modifies this
      ensures requests == old(requests) + [StoreProperty(entry, property, value)]
    {
      requests := requests + [StoreProperty(entry, property, value)];
    }

    /** Asks the list to insert an entry at `index`. */
    method Insert(index: int, entry: WordListEntry)
      modifies this
      ensures requests == old(requests) + [InsertAt(index, entry)]
    {
      requests := requests + [InsertAt(index, entry)];
    }
  }

  class WordListEntry {
    var owner: WordList?
    var phrase: string
    var translation: string

    /** A blank entry: both texts empty. */
    constructor (owner: WordList?)
      ensures this.owner == owner && phrase == "" && translation == ""
    {
      this.owner := owner;
      phrase, translation := "", "";
    }

    /** An entry with the given texts, a missing (null) text becoming the empty string. */
    constructor WithTexts(owner: WordList?, phrase: Option<string>, translation: Option<string>)
      ensures this.owner == owner
      ensures this.phrase == (if phrase.Some? then phrase.value else "")
      ensures this.translation == (if translation.Some? then translation.value else "")
    {
      this.owner := owner;
      this.phrase := if phrase.Some? then phrase.value else "";
      this.translation := if translation.Some? then translation.value else "";
    }

    /** The field `property` selects; any other value of the enumeration is an ArgumentException. */
    function GetProperty(property: EntryProperty): (r: Result<string>)
      reads this
      ensures r.Failure? <==> property.Undefined?
      ensures r.Failure? ==> r.error == ArgumentException
      ensures property == Phrase ==> r == Success(phrase)
      ensures property == Translation ==> r == Success(translation)
    {
      match property
      case Phrase => Success(phrase)
      case Translation => Success(translation)
      case Undefined(_) => Failure(ArgumentException)
    }

    /** SetPhrase: null is rejected before anything changes; otherwise only the phrase changes. The
        owner is not told. */
    method SetPhrase(value: Option<string>) returns (thrown: Option<Exception>)
      modifies this
      ensures thrown.Some? <==> value.None?
      ensures thrown.Some? ==> thrown.value == ArgumentNullException && phrase == old(phrase)
      ensures value.Some? ==> phrase == value.value && GetProperty(Phrase) == Success(value.value)
      ensures owner == old(owner) && translation == old(translation)
    {
      if value.None? {
        return Some(ArgumentNullException);
      }
      phrase := value.value;
      thrown := None;
    }

    /** SetTranslation: the mirror image of SetPhrase. */
    method SetTranslation(value: Option<string>) returns (thrown: Option<Exception>)
      modifies this
      ensures thrown.Some? <==> value.None?
      ensures thrown.Some? ==> thrown.value == ArgumentNullException && translation == old(translation)
      ensures value.Some? ==> translation == value.value && GetProperty(Translation) == Success(value.value)
      ensures owner == old(owner) && phrase == old(phrase)
    {
      if value.None? {
        return Some(ArgumentNullException);
      }
      translation := value.value;
      thrown := None;
    }

    /** The Phrase setter: as SetPhrase, and then, when the entry has an owner, the owner is asked to
        store the new phrase. */
    method SetPhraseProperty(value: Option<string>) returns (thrown: Option<Exception>)
      modifies this, owner
      ensures owner == old(owner) && translation == old(translation)
      ensures thrown.Some? <==> value.None?
      ensures thrown.Some? ==> thrown.value == ArgumentNullException
      ensures value.None? ==> phrase == old(phrase) && (old(owner) != null ==> owner.requests == old(owner.requests))
      ensures value.Some? ==> phrase == value.value
      ensures value.Some? && old(owner) != null ==>
        owner.requests == old(owner.requests) + [StoreProperty(this, Phrase, value.value)]
    {
      if value.None? {
        return Some(ArgumentNullException);
      }
      thrown := SetPhrase(value);
      if owner != null {
        owner.SetProperty(this, Phrase, value.value);
      }
    }

    /** The Translation setter: the mirror image of the Phrase setter. */
    method SetTranslationProperty(value: Option<string>) returns (thrown: Option<Exception>)
      modifies this, owner
      ensures owner == old(owner) && phrase == old(phrase)
      ensures thrown.Some? <==> value.None?
      ensures thrown.Some? ==> thrown.value == ArgumentNullException
      ensures value.None? ==> translation == old(translation) && (old(owner) != null ==> owner.requests == old(owner.requests))
      ensures value.Some? ==> translation == value.value
      ensures value.Some? && old(owner) != null ==>
        owner.requests == old(owner.requests) + [StoreProperty(this, Translation, value.value)]
    {
      if value.None? {
        return Some(ArgumentNullException);
      }
      thrown := SetTranslation(value);
      if owner != null {
        owner.SetProperty(this, Translation, value.value);
      }
    }

    /** SetProperty never completes normally. A named property is first set through SetPhrase or
        SetTranslation (so a null value is an ArgumentNullException from there, leaving the entry as
        it was); a non-null value is stored and then an ArgumentException is thrown all the same. Any
        other property is an ArgumentException with nothing changed. The owner is not told. */
    method SetProperty(property: EntryProperty, newValue: Option<string>) returns (thrown: Exception)
      modifies this
      ensures thrown == (if !property.Undefined? && newValue.None? then ArgumentNullException else ArgumentException)
      ensures property == Phrase && newValue.Some? ==> phrase == newValue.value
      ensures !(property == Phrase && newValue.Some?) ==> phrase == old(phrase)
      ensures property == Translation && newValue.Some? ==> translation == newValue.value
      ensures !(property == Translation && newValue.Some?) ==> translation == old(translation)
      ensures owner == old(owner)
    {
      var inner: Option<Exception> := None;
      match property {
        case Phrase =>
          inner := SetPhrase(newValue);
        case Translation =>
          inner := SetTranslation(newValue);
        case Undefined(_) =>
      }
      if inner.Some? {
        return inner.value;
      }
      thrown := ArgumentException;
    }

    /** The Owner setter: assigning the current owner does nothing; otherwise only the owner changes. */
    method SetOwner(value: WordList?)
      modifies this
      ensures owner == value
      ensures phrase == old(phrase) && translation == old(translation)
      ensures old(owner) == value ==> unchanged(this)
    {
      if owner == value {
        return;
      }
      owner := value;
    }

    /** AddTo: the entry takes the new owner and asks it to insert the entry at `index`. */
    method AddTo(newOwner: WordList, index: int)
      modifies this, newOwner
      ensures owner == newOwner && phrase == old(phrase) && translation == old(translation)
      ensures newOwner.requests == old(newOwner.requests) + [InsertAt(index, this)]
    {
      SetOwner(newOwner);
      newOwner.Insert(index, this);
    }

    /** Clone: a new entry with the same owner and texts; this entry is not changed. */
    method Clone() returns (copy: WordListEntry)
      ensures fresh(copy)
      ensures copy.owner == owner && copy.phrase == phrase && copy.translation == translation
      ensures forall p :: copy.GetProperty(p) == GetProperty(p)
    {
      copy := new WordListEntry.WithTexts(owner, Some(phrase), Some(translation));
    }
  }
}
