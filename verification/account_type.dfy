/** `AccountType`: the 4-bit account-type field of a Steam id, its numeric
    code and its one-letter tag in the `[L:1:W]` text form. */
module AccountTypes {
  import opened Wrappers
  import opened Bits
  import opened Primitives

  datatype AccountType =
    | Invalid
    | Individual
    | Multiseat
    | GameServer
    | AnonGameServer
    | Pending
    | ContentServer
    | Clan
    | Chat
    | SuperSeeder
    | AnonUser
  {
    /** `as_u64`: the code of the variant, its position in declaration order. */
    function AsU64(): (code: u64)
      ensures code <= 10
    {
      match this
      case Invalid => 0
      case Individual => 1
      case Multiseat => 2
      case GameServer => 3
      case AnonGameServer => 4
      case Pending => 5
      case ContentServer => 6
      case Clan => 7
      case Chat => 8
      case SuperSeeder => 9
      case AnonUser => 10
    }

    /** `to_letter`: the tag used in `[L:1:W]`; chat and super-seeder
        accounts have none. */
    function ToLetter(): (letter: Option<char>)
      ensures letter.None? <==> this == Chat || this == SuperSeeder
    {
      match this
      case Invalid => Some('I')
      case Individual => Some('U')
      case Multiseat => Some('M')
      case GameServer => Some('G')
      case AnonGameServer => Some('A')
      case Pending => Some('P')
      case ContentServer => Some('C')
      case Clan => Some('g')
      case Chat => None
      case SuperSeeder => None
      case AnonUser => Some('a')
    }
  }

  /** `AccountType::try_from(u64)`: codes 0 to 10 name a variant, anything
      else is handed back as `Unknown`. */
  function TryFrom(value: u64): (r: Result<AccountType, EnumError<u64>>)
    ensures r.Ok? <==> value <= 10
    ensures r.Ok? ==> r.value.AsU64() == value
    ensures r.Err? ==> r.error == Unknown(value)
  {
    match value
    case 0 => Ok(Invalid)
    case 1 => Ok(Individual)
    case 2 => Ok(Multiseat)
    case 3 => Ok(GameServer)
    case 4 => Ok(AnonGameServer)
    case 5 => Ok(Pending)
    case 6 => Ok(ContentServer)
    case 7 => Ok(Clan)
    case 8 => Ok(Chat)
    case 9 => Ok(SuperSeeder)
    case 10 => Ok(AnonUser)
    case _ => Err(Unknown(value))
  }

  /** Decoding the code of a variant gives the variant back. */
  lemma TryFromAsU64(t: AccountType)
    ensures TryFrom(t.AsU64()) == Ok(t)
  {
  }

  /** The letters that exist are pairwise distinct, so the letter alone
      determines the type; the case matters (`g` Clan against `G`
      GameServer, `a` AnonUser against `A` AnonGameServer). */
  lemma LetterDeterminesType(a: AccountType, b: AccountType)
    requires a.ToLetter().Some? && a.ToLetter() == b.ToLetter()
    ensures a == b
  {
  }

  /** The type a letter tags, the inverse of `to_letter`. */
  function FromLetter(letter: char): (r: Option<AccountType>)
    ensures r.Some? ==> r.value.ToLetter() == Some(letter)
    ensures r.None? ==> forall t: AccountType :: t.ToLetter() != Some(letter)
  {
    match letter
    case 'I' => Some(Invalid)
    case 'U' => Some(Individual)
    case 'M' => Some(Multiseat)
    case 'G' => Some(GameServer)
    case 'A' => Some(AnonGameServer)
    case 'P' => Some(Pending)
    case 'C' => Some(ContentServer)
    case 'g' => Some(Clan)
    case 'a' => Some(AnonUser)
    case _ => None
  }
}
