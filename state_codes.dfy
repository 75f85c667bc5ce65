/** The fixed numeric-code to state-name table the education load applies to the STATE
    column (`postgresql_upload_data.py`), and what pandas' `Series.map` does with it. */
module StateCodes {
  import opened Wrappers
  import opened Text

  /** Codes run from 1 to 51: the fifty states and the District of Columbia. */
  const NumStates := 51

  /** The state name pandas' `map` assigns to code `k`, for the 51 codes of the table. */
  function NameOf(k: int): (r: string)
    requires 1 <= k <= NumStates
    ensures |r| > 0
  {
    match k
    case 1 => "Alabama"
    case 2 => "Alaska"
    case 3 => "Arizona"
    case 4 => "Arkansas"
    case 5 => "California"
    case 6 => "Colorado"
    case 7 => "Connecticut"
    case 8 => "Delaware"
    case 9 => "District of Columbia"
    case 10 => "Florida"
    case 11 => "Georgia"
    case 12 => "Hawaii"
    case 13 => "Idaho"
    case 14 => "Illinois"
    case 15 => "Indiana"
    case 16 => "Iowa"
    case 17 => "Kansas"
    case 18 => "Kentucky"
    case 19 => "Louisiana"
    case 20 => "Maine"
    case 21 => "Maryland"
    case 22 => "Massachusetts"
    case 23 => "Michigan"
    case 24 => "Minnesota"
    case 25 => "Mississippi"
    case 26 => "Missouri"
    case 27 => "Montana"
    case 28 => "Nebraska"
    case 29 => "Nevada"
    case 30 => "New Hampshire"
    case 31 => "New Jersey"
    case 32 => "New Mexico"
    case 33 => "New York"
    case 34 => "North Carolina"
    case 35 => "North Dakota"
    case 36 => "Ohio"
    case 37 => "Oklahoma"
    case 38 => "Oregon"
    case 39 => "Pennsylvania"
    case 40 => "Rhode Island"
    case 41 => "South Carolina"
    case 42 => "South Dakota"
    case 43 => "Tennessee"
    case 44 => "Texas"
    case 45 => "Utah"
    case 46 => "Vermont"
    case 47 => "Virginia"
    case 48 => "Washington"
    case 49 => "West Virginia"
    case 50 => "Wisconsin"
    case _ => "Wyoming"
  }

  /** The position of `name` in the table, by a decision on its length and a few of its
      characters; None for a name that is not in the table. */
  function NameIndex(name: string): (r: Option<nat>)
    ensures r.Some? ==> 1 <= r.value <= NumStates && NameOf(r.value) == name
  {
    match |name|
    case 4 => IndexOfLength4(name)
    case 5 => IndexOfLength5(name)
    case 6 => IndexOfLength6(name)
    case 7 => IndexOfLength7(name)
    case 8 => IndexOfLength8(name)
    case 9 => IndexOfLength9(name)
    case 10 => IndexOfLength10(name)
    case 11 => IndexOfLength11(name)
    case 12 => IndexOfLength12(name)
    case 13 => IndexOfLength13(name)
    case 14 => IndexOfLength14(name)
    case 20 => if name == "District of Columbia" then Some(9) else None
    case _ => None
  }

  function IndexOfLength4(name: string): (r: Option<nat>)
    requires |name| == 4
    ensures r.Some? ==> 1 <= r.value <= NumStates && NameOf(r.value) == name
  {
    (match name[0]
      case 'I' => if name == "Iowa" then Some(16) else None
      case 'O' => if name == "Ohio" then Some(36) else None
      case 'U' => if name == "Utah" then Some(45) else None
      case _ => None)
  }

  function IndexOfLength5(name: string): (r: Option<nat>)
    requires |name| == 5
    ensures r.Some? ==> 1 <= r.value <= NumStates && NameOf(r.value) == name
  {
    (match name[0]
      case 'I' => if name == "Idaho" then Some(13) else None
      case 'M' => if name == "Maine" then Some(20) else None
      case 'T' => if name == "Texas" then Some(44) else None
      case _ => None)
  }

  function IndexOfLength6(name: string): (r: Option<nat>)
    requires |name| == 6
    ensures r.Some? ==> 1 <= r.value <= NumStates && NameOf(r.value) == name
  {
    (match name[0]
      case 'A' => if name == "Alaska" then Some(2) else None
      case 'H' => if name == "Hawaii" then Some(12) else None
      case 'K' => if name == "Kansas" then Some(17) else None
      case 'N' => if name == "Nevada" then Some(29) else None
      case 'O' => if name == "Oregon" then Some(38) else None
      case _ => None)
  }

  function IndexOfLength7(name: string): (r: Option<nat>)
    requires |name| == 7
    ensures r.Some? ==> 1 <= r.value <= NumStates && NameOf(r.value) == name
  {
    (match name[0]
      case 'A' => (match name[1]
        case 'l' => if name == "Alabama" then Some(1) else None
        case 'r' => if name == "Arizona" then Some(3) else None
        case _ => None)
      case 'F' => if name == "Florida" then Some(10) else None
      case 'G' => if name == "Georgia" then Some(11) else None
      case 'I' => if name == "Indiana" then Some(15) else None
      case 'M' => if name == "Montana" then Some(27) else None
      case 'V' => if name == "Vermont" then Some(46) else None
      case 'W' => if name == "Wyoming" then Some(51) else None
      case _ => None)
  }

  function IndexOfLength8(name: string): (r: Option<nat>)
    requires |name| == 8
    ensures r.Some? ==> 1 <= r.value <= NumStates && NameOf(r.value) == name
  {
    (match name[3]
      case ' ' => if name == "New York" then Some(33) else None
      case 'a' => (match name[0]
        case 'A' => if name == "Arkansas" then Some(4) else None
        case 'D' => if name == "Delaware" then Some(8) else None
        case 'O' => if name == "Oklahoma" then Some(37) else None
        case _ => None)
      case 'g' => if name == "Virginia" then Some(47) else None
      case 'h' => if name == "Michigan" then Some(23) else None
      case 'i' => if name == "Illinois" then Some(14) else None
      case 'o' => if name == "Colorado" then Some(6) else None
      case 'r' => if name == "Nebraska" then Some(28) else None
      case 's' => if name == "Missouri" then Some(26) else None
      case 't' => if name == "Kentucky" then Some(18) else None
      case 'y' => if name == "Maryland" then Some(21) else None
      case _ => None)
  }

  function IndexOfLength9(name: string): (r: Option<nat>)
    requires |name| == 9
    ensures r.Some? ==> 1 <= r.value <= NumStates && NameOf(r.value) == name
  {
    (match name[0]
      case 'L' => if name == "Louisiana" then Some(19) else None
      case 'M' => if name == "Minnesota" then Some(24) else None
      case 'T' => if name == "Tennessee" then Some(43) else None
      case 'W' => if name == "Wisconsin" then Some(50) else None
      case _ => None)
  }

  function IndexOfLength10(name: string): (r: Option<nat>)
    requires |name| == 10
    ensures r.Some? ==> 1 <= r.value <= NumStates && NameOf(r.value) == name
  {
    (match name[4]
      case 'J' => if name == "New Jersey" then Some(31) else None
      case 'M' => if name == "New Mexico" then Some(32) else None
      case 'f' => if name == "California" then Some(5) else None
      case 'i' => if name == "Washington" then Some(48) else None
      case _ => None)
  }

  function IndexOfLength11(name: string): (r: Option<nat>)
    requires |name| == 11
    ensures r.Some? ==> 1 <= r.value <= NumStates && NameOf(r.value) == name
  {
    (match name[0]
      case 'C' => if name == "Connecticut" then Some(7) else None
      case 'M' => if name == "Mississippi" then Some(25) else None
      case _ => None)
  }

  function IndexOfLength12(name: string): (r: Option<nat>)
    requires |name| == 12
    ensures r.Some? ==> 1 <= r.value <= NumStates && NameOf(r.value) == name
  {
    (match name[0]
      case 'N' => if name == "North Dakota" then Some(35) else None
      case 'P' => if name == "Pennsylvania" then Some(39) else None
      case 'R' => if name == "Rhode Island" then Some(40) else None
      case 'S' => if name == "South Dakota" then Some(42) else None
      case _ => None)
  }

  function IndexOfLength13(name: string): (r: Option<nat>)
    requires |name| == 13
    ensures r.Some? ==> 1 <= r.value <= NumStates && NameOf(r.value) == name
  {
    (match name[0]
      case 'M' => if name == "Massachusetts" then Some(22) else None
      case 'N' => if name == "New Hampshire" then Some(30) else None
      case 'W' => if name == "West Virginia" then Some(49) else None
      case _ => None)
  }

  function IndexOfLength14(name: string): (r: Option<nat>)
    requires |name| == 14
    ensures r.Some? ==> 1 <= r.value <= NumStates && NameOf(r.value) == name
  {
    (match name[0]
      case 'N' => if name == "North Carolina" then Some(34) else None
      case 'S' => if name == "South Carolina" then Some(41) else None
      case _ => None)
  }

  lemma NameIndexOfNameA(k: int)
    requires 1 <= k <= 6
    ensures NameIndex(NameOf(k)) == Some(k)
  {
  }

  lemma NameIndexOfNameB(k: int)
    requires 7 <= k <= 12
    ensures NameIndex(NameOf(k)) == Some(k)
  {
  }

  lemma NameIndexOfNameC(k: int)
    requires 13 <= k <= 18
    ensures NameIndex(NameOf(k)) == Some(k)
  {
  }

  lemma NameIndexOfNameD(k: int)
    requires 19 <= k <= 24
    ensures NameIndex(NameOf(k)) == Some(k)
  {
  }

  lemma NameIndexOfNameE(k: int)
    requires 25 <= k <= 30
    ensures NameIndex(NameOf(k)) == Some(k)
  {
  }

  lemma NameIndexOfNameF(k: int)
    requires 31 <= k <= 36
    ensures NameIndex(NameOf(k)) == Some(k)
  {
  }

  lemma NameIndexOfNameG(k: int)
    requires 37 <= k <= 42
    ensures NameIndex(NameOf(k)) == Some(k)
  {
  }

  lemma NameIndexOfNameH(k: int)
    requires 43 <= k <= 47
    ensures NameIndex(NameOf(k)) == Some(k)
  {
  }

  lemma NameIndexOfNameI(k: int)
    requires 48 <= k <= 51
    ensures NameIndex(NameOf(k)) == Some(k)
  {
  }

  /** Every name of the table sits at its own position, so no two codes share a name. */
  lemma NameIndexOfName(k: int)
    requires 1 <= k <= NumStates
    ensures NameIndex(NameOf(k)) == Some(k)
  {
    if k <= 6 { NameIndexOfNameA(k); }
    else if k <= 12 { NameIndexOfNameB(k); }
    else if k <= 18 { NameIndexOfNameC(k); }
    else if k <= 24 { NameIndexOfNameD(k); }
    else if k <= 30 { NameIndexOfNameE(k); }
    else if k <= 36 { NameIndexOfNameF(k); }
    else if k <= 42 { NameIndexOfNameG(k); }
    else if k <= 47 { NameIndexOfNameH(k); }
    else { NameIndexOfNameI(k); }
  }

  /** The 51 names are pairwise distinct. */
  lemma NamesDistinct(i: int, j: int)
    requires 1 <= i <= NumStates && 1 <= j <= NumStates
    requires NameOf(i) == NameOf(j)
    ensures i == j
  {
    NameIndexOfName(i);
    NameIndexOfName(j);
  }

  /** The code a key of the table spells, when `code` is exactly one of the keys
      '1'..'51' (no sign, no padding, no leading zero). */
  function CodeIndex(code: string): (r: Option<nat>)
    ensures r.Some? ==> 1 <= r.value <= NumStates && NatToString(r.value) == code
  {
    if |code| == 1 && '1' <= code[0] <= '9' then
      Some(DigitValue(code[0]))
    else if |code| == 2 && '1' <= code[0] <= '5' && IsDigit(code[1])
      && 10 * DigitValue(code[0]) + DigitValue(code[1]) <= NumStates then
      var n := 10 * DigitValue(code[0]) + DigitValue(code[1]);
      assert n / 10 == DigitValue(code[0]) && n % 10 == DigitValue(code[1]);
      Some(n)
    else
      None
  }

  /** `CodeIndex` accepts exactly the printed codes 1..51 and reads each back as itself. */
  lemma CodeIndexExactly(code: string, k: int)
    ensures CodeIndex(code) == Some(k) <==> 1 <= k <= NumStates && code == NatToString(k)
  {
    if 1 <= k <= NumStates && code == NatToString(k) {
      if k >= 10 {
        assert NatToString(k) == NatToString(k / 10) + [DigitChar(k % 10)];
        assert NatToString(k / 10) == [DigitChar(k / 10)];
      }
    }
  }

  /** `edu_df['STATE'].map({...})`: the state name of a table key, and missing (NaN) for
      any other value; the lookup never raises. */
  function StateName(code: string): (r: Option<string>)
    ensures r.Some? <==> CodeIndex(code).Some?
    ensures r.Some? ==> |r.value| > 0 && r.value == NameOf(CodeIndex(code).value)
  {
    match CodeIndex(code)
    case Some(k) => Some(NameOf(k))
    case None => None
  }

  /** The table read backwards: the key whose name is `name`. */
  function CodeOf(name: string): (r: Option<string>)
    ensures r.Some? <==> NameIndex(name).Some?
  {
    match NameIndex(name)
    case Some(k) => Some(NatToString(k))
    case None => None
  }

  /** The table is a bijection between the keys '1'..'51' and the 51 names. */
  lemma StateNameCodeOf(code: string, name: string)
    ensures StateName(code) == Some(name) <==> CodeOf(name) == Some(code)
  {
    if StateName(code) == Some(name) {
      var k := CodeIndex(code).value;
      NameIndexOfName(k);
    }
    if CodeOf(name) == Some(code) {
      var k := NameIndex(name).value;
      CodeIndexExactly(code, k);
    }
  }

  /** Two keys that map to the same state are the same key. */
  lemma StateNameInjective(c1: string, c2: string)
    requires StateName(c1).Some? && StateName(c1) == StateName(c2)
    ensures c1 == c2
  {
    NamesDistinct(CodeIndex(c1).value, CodeIndex(c2).value);
  }

  /** Code 9 is the District of Columbia; values outside the keys, such as a zero-padded or
      out-of-range code, come out missing. */
  lemma StateNameExamples()
    ensures StateName("9") == Some("District of Columbia")
    ensures StateName("1") == Some("Alabama") && StateName("51") == Some("Wyoming")
    ensures StateName("09") == None && StateName("0") == None && StateName("52") == None
    ensures StateName(" 9") == None && StateName("") == None
  {
  }
}
