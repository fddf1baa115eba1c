/**
 The two key maps of the keyboard driver, as character codes; 0 means the key has no character.
 */
module KeyMap {

  /** keymap_lower. */
  function Lower(sc: nat): nat
  {
    match sc
    case 0x01 => 27
    case 0x02 => 49
    case 0x03 => 50
    case 0x04 => 51
    case 0x05 => 52
    case 0x06 => 53
    case 0x07 => 54
    case 0x08 => 55
    case 0x09 => 56
    case 0x0A => 57
    case 0x0B => 48
    case 0x0C => 45
    case 0x0D => 61
    case 0x0E => 8
    case 0x0F => 9
    case 0x10 => 113
    case 0x11 => 119
    case 0x12 => 101
    case 0x13 => 114
    case 0x14 => 116
    case 0x15 => 121
    case 0x16 => 117
    case 0x17 => 105
    case 0x18 => 111
    case 0x19 => 112
    case 0x1A => 91
    case 0x1B => 93
    case 0x1C => 10
    case 0x1E => 97
    case 0x1F => 115
    case 0x20 => 100
    case 0x21 => 102
    case 0x22 => 103
    case 0x23 => 104
    case 0x24 => 106
    case 0x25 => 107
    case 0x26 => 108
    case 0x27 => 59
    case 0x28 => 39
    case 0x29 => 96
    case 0x2B => 92
    case 0x2C => 122
    case 0x2D => 120
    case 0x2E => 99
    case 0x2F => 118
    case 0x30 => 98
    case 0x31 => 110
    case 0x32 => 109
    case 0x33 => 44
    case 0x34 => 46
    case 0x35 => 47
    case 0x37 => 42
    case 0x39 => 32
    case _ => 0
  }

  /** keymap_upper. */
  function Upper(sc: nat): nat
  {
    match sc
    case 0x01 => 27
    case 0x02 => 33
    case 0x03 => 64
    case 0x04 => 35
    case 0x05 => 36
    case 0x06 => 37
    case 0x07 => 94
    case 0x08 => 38
    case 0x09 => 42
    case 0x0A => 40
    case 0x0B => 41
    case 0x0C => 95
    case 0x0D => 43
    case 0x0E => 8
    case 0x0F => 9
    case 0x10 => 81
    case 0x11 => 87
    case 0x12 => 69
    case 0x13 => 82
    case 0x14 => 84
    case 0x15 => 89
    case 0x16 => 85
    case 0x17 => 73
    case 0x18 => 79
    case 0x19 => 80
    case 0x1A => 123
    case 0x1B => 125
    case 0x1C => 10
    case 0x1E => 65
    case 0x1F => 83
    case 0x20 => 68
    case 0x21 => 70
    case 0x22 => 71
    case 0x23 => 72
    case 0x24 => 74
    case 0x25 => 75
    case 0x26 => 76
    case 0x27 => 58
    case 0x28 => 34
    case 0x29 => 126
    case 0x2B => 124
    case 0x2C => 90
    case 0x2D => 88
    case 0x2E => 67
    case 0x2F => 86
    case 0x30 => 66
    case 0x31 => 78
    case 0x32 => 77
    case 0x33 => 60
    case 0x34 => 62
    case 0x35 => 63
    case 0x37 => 42
    case 0x39 => 32
    case _ => 0
  }

  predicate IsLetter(c: nat) { 97 <= c <= 122 || 65 <= c <= 90 }

  /** Every mapped character is a 7-bit code below DEL. */
  lemma MapsAreAscii(sc: nat)
    ensures Lower(sc) <= 126 && Upper(sc) <= 126
  {
  }
}
