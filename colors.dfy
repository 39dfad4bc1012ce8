/**
 * The colour registry: System.ConsoleColor, the name table `colorDict`
 * and the two `TryFindColor` lookups.
 */
module Colors {

  /** System.ConsoleColor; the order of the constructors is the enum's numbering. */
  datatype Color =
    | Black | DarkBlue | DarkGreen | DarkCyan | DarkRed | DarkMagenta | DarkYellow | Gray
    | DarkGray | Blue | Green | Cyan | Red | Magenta | Yellow | White

  /** The integer value of the enum member. */
  function Code(c: Color): (n: nat)
    ensures n < 16
  {
    match c
    case Black => 0        case DarkBlue => 1     case DarkGreen => 2    case DarkCyan => 3
    case DarkRed => 4      case DarkMagenta => 5  case DarkYellow => 6   case Gray => 7
    case DarkGray => 8     case Blue => 9         case Green => 10       case Cyan => 11
    case Red => 12         case Magenta => 13     case Yellow => 14      case White => 15
  }

  /** The cast `(ConsoleColor)code` for a code the enum defines. */
  function FromCode(n: int): (c: Color)
    requires 0 <= n < 16
    ensures Code(c) == n
  {
    [Black, DarkBlue, DarkGreen, DarkCyan, DarkRed, DarkMagenta, DarkYellow, Gray,
     DarkGray, Blue, Green, Cyan, Red, Magenta, Yellow, White][n]
  }

  lemma CodeRoundTrip(c: Color)
    ensures FromCode(Code(c)) == c
  {
  }

  /** The enum member's name in lower case. */
  function Name(c: Color): string {
    match c
    case Black => "black"          case DarkBlue => "darkblue"
    case DarkGreen => "darkgreen"  case DarkCyan => "darkcyan"
    case DarkRed => "darkred"      case DarkMagenta => "darkmagenta"
    case DarkYellow => "darkyellow" case Gray => "gray"
    case DarkGray => "darkgray"    case Blue => "blue"
    case Green => "green"          case Cyan => "cyan"
    case Red => "red"              case Magenta => "magenta"
    case Yellow => "yellow"        case White => "white"
  }

  /** The name table; keys are compared exactly (case-sensitively). */
  const colorDict: map<string, Color> := map[
    "black" := Black,         "darkblue" := DarkBlue,        "darkgreen" := DarkGreen,    "darkcyan" := DarkCyan,
    "darkred" := DarkRed,     "darkmagenta" := DarkMagenta,  "darkyellow" := DarkYellow,  "gray" := Gray,
    "darkgray" := DarkGray,   "blue" := Blue,                "green" := Green,            "cyan" := Cyan,
    "red" := Red,             "magenta" := Magenta,          "yellow" := Yellow,          "white" := White
  ]

  /** Every colour is in the table under its own name. */
  lemma NamesInDict()
    ensures forall c :: Name(c) in colorDict && colorDict[Name(c)] == c
  {
    forall c ensures Name(c) in colorDict && colorDict[Name(c)] == c {
      match c
      case Black =>        case DarkBlue =>     case DarkGreen =>    case DarkCyan =>
      case DarkRed =>      case DarkMagenta =>  case DarkYellow =>   case Gray =>
      case DarkGray =>     case Blue =>         case Green =>        case Cyan =>
      case Red =>          case Magenta =>      case Yellow =>       case White =>
    }
  }

  /** The table holds nothing but the colours' names. */
  lemma DictOnlyNames()
    ensures forall k :: k in colorDict ==> Name(colorDict[k]) == k
  {
  }

  /** Name lookup; on a miss the out value is default(ConsoleColor), which is Black. */
  function TryFindColorName(name: string): (r: (bool, Color))
    ensures r.0 <==> exists c :: Name(c) == name
    ensures r.0 ==> Name(r.1) == name
    ensures !r.0 ==> r.1 == Black
  {
    NamesInDict();
    DictOnlyNames();
    if name in colorDict then (true, colorDict[name]) else (false, Black)
  }

  /** Code lookup: succeeds exactly for 0..15; the out value is Gray otherwise. */
  function TryFindColorCode(code: int): (r: (bool, Color))
    ensures r.0 <==> 0 <= code <= 15
    ensures r.0 ==> Code(r.1) == code
    ensures !r.0 ==> r.1 == Gray
  {
    if code < 0 || code > 15 then (false, Gray) else (true, FromCode(code))
  }

  /** Codes and names agree: the colour with code i is the one the table lists under its name. */
  lemma NamesAndCodesAgree(i: int)
    requires 0 <= i < 16
    ensures TryFindColorName(Name(FromCode(i))) == TryFindColorCode(i)
  {
    NamesInDict();
  }
}
