// The Huffman code of Appendix B of RFC 7541, sixteen symbols to a function: codes and
// lengths by symbol, and the symbols in the order of their codes.
module HuffmanData {
  // ---- codes

  function Code0(j: nat): nat {
    match j
    case 0 => 0x1ff8 case 1 => 0x7fffd8 case 2 => 0xfffffe2 case 3 => 0xfffffe3 case 4 => 0xfffffe4 case 5 => 0xfffffe5 case 6 => 0xfffffe6 case 7 => 0xfffffe7
    case 8 => 0xfffffe8 case 9 => 0xffffea case 10 => 0x3ffffffc case 11 => 0xfffffe9 case 12 => 0xfffffea case 13 => 0x3ffffffd case 14 => 0xfffffeb case _ => 0xfffffec
  }

  function Code1(j: nat): nat {
    match j
    case 0 => 0xfffffed case 1 => 0xfffffee case 2 => 0xfffffef case 3 => 0xffffff0 case 4 => 0xffffff1 case 5 => 0xffffff2 case 6 => 0x3ffffffe case 7 => 0xffffff3
    case 8 => 0xffffff4 case 9 => 0xffffff5 case 10 => 0xffffff6 case 11 => 0xffffff7 case 12 => 0xffffff8 case 13 => 0xffffff9 case 14 => 0xffffffa case _ => 0xffffffb
  }

  function Code2(j: nat): nat {
    match j
    case 0 => 0x14 case 1 => 0x3f8 case 2 => 0x3f9 case 3 => 0xffa case 4 => 0x1ff9 case 5 => 0x15 case 6 => 0xf8 case 7 => 0x7fa
    case 8 => 0x3fa case 9 => 0x3fb case 10 => 0xf9 case 11 => 0x7fb case 12 => 0xfa case 13 => 0x16 case 14 => 0x17 case _ => 0x18
  }

  function Code3(j: nat): nat {
    match j
    case 0 => 0x0 case 1 => 0x1 case 2 => 0x2 case 3 => 0x19 case 4 => 0x1a case 5 => 0x1b case 6 => 0x1c case 7 => 0x1d
    case 8 => 0x1e case 9 => 0x1f case 10 => 0x5c case 11 => 0xfb case 12 => 0x7ffc case 13 => 0x20 case 14 => 0xffb case _ => 0x3fc
  }

  function Code4(j: nat): nat {
    match j
    case 0 => 0x1ffa case 1 => 0x21 case 2 => 0x5d case 3 => 0x5e case 4 => 0x5f case 5 => 0x60 case 6 => 0x61 case 7 => 0x62
    case 8 => 0x63 case 9 => 0x64 case 10 => 0x65 case 11 => 0x66 case 12 => 0x67 case 13 => 0x68 case 14 => 0x69 case _ => 0x6a
  }

  function Code5(j: nat): nat {
    match j
    case 0 => 0x6b case 1 => 0x6c case 2 => 0x6d case 3 => 0x6e case 4 => 0x6f case 5 => 0x70 case 6 => 0x71 case 7 => 0x72
    case 8 => 0xfc case 9 => 0x73 case 10 => 0xfd case 11 => 0x1ffb case 12 => 0x7fff0 case 13 => 0x1ffc case 14 => 0x3ffc case _ => 0x22
  }

  function Code6(j: nat): nat {
    match j
    case 0 => 0x7ffd case 1 => 0x3 case 2 => 0x23 case 3 => 0x4 case 4 => 0x24 case 5 => 0x5 case 6 => 0x25 case 7 => 0x26
    case 8 => 0x27 case 9 => 0x6 case 10 => 0x74 case 11 => 0x75 case 12 => 0x28 case 13 => 0x29 case 14 => 0x2a case _ => 0x7
  }

  function Code7(j: nat): nat {
    match j
    case 0 => 0x2b case 1 => 0x76 case 2 => 0x2c case 3 => 0x8 case 4 => 0x9 case 5 => 0x2d case 6 => 0x77 case 7 => 0x78
    case 8 => 0x79 case 9 => 0x7a case 10 => 0x7b case 11 => 0x7ffe case 12 => 0x7fc case 13 => 0x3ffd case 14 => 0x1ffd case _ => 0xffffffc
  }

  function Code8(j: nat): nat {
    match j
    case 0 => 0xfffe6 case 1 => 0x3fffd2 case 2 => 0xfffe7 case 3 => 0xfffe8 case 4 => 0x3fffd3 case 5 => 0x3fffd4 case 6 => 0x3fffd5 case 7 => 0x7fffd9
    case 8 => 0x3fffd6 case 9 => 0x7fffda case 10 => 0x7fffdb case 11 => 0x7fffdc case 12 => 0x7fffdd case 13 => 0x7fffde case 14 => 0xffffeb case _ => 0x7fffdf
  }

  function Code9(j: nat): nat {
    match j
    case 0 => 0xffffec case 1 => 0xffffed case 2 => 0x3fffd7 case 3 => 0x7fffe0 case 4 => 0xffffee case 5 => 0x7fffe1 case 6 => 0x7fffe2 case 7 => 0x7fffe3
    case 8 => 0x7fffe4 case 9 => 0x1fffdc case 10 => 0x3fffd8 case 11 => 0x7fffe5 case 12 => 0x3fffd9 case 13 => 0x7fffe6 case 14 => 0x7fffe7 case _ => 0xffffef
  }

  function Code10(j: nat): nat {
    match j
    case 0 => 0x3fffda case 1 => 0x1fffdd case 2 => 0xfffe9 case 3 => 0x3fffdb case 4 => 0x3fffdc case 5 => 0x7fffe8 case 6 => 0x7fffe9 case 7 => 0x1fffde
    case 8 => 0x7fffea case 9 => 0x3fffdd case 10 => 0x3fffde case 11 => 0xfffff0 case 12 => 0x1fffdf case 13 => 0x3fffdf case 14 => 0x7fffeb case _ => 0x7fffec
  }

  function Code11(j: nat): nat {
    match j
    case 0 => 0x1fffe0 case 1 => 0x1fffe1 case 2 => 0x3fffe0 case 3 => 0x1fffe2 case 4 => 0x7fffed case 5 => 0x3fffe1 case 6 => 0x7fffee case 7 => 0x7fffef
    case 8 => 0xfffea case 9 => 0x3fffe2 case 10 => 0x3fffe3 case 11 => 0x3fffe4 case 12 => 0x7ffff0 case 13 => 0x3fffe5 case 14 => 0x3fffe6 case _ => 0x7ffff1
  }

  function Code12(j: nat): nat {
    match j
    case 0 => 0x3ffffe0 case 1 => 0x3ffffe1 case 2 => 0xfffeb case 3 => 0x7fff1 case 4 => 0x3fffe7 case 5 => 0x7ffff2 case 6 => 0x3fffe8 case 7 => 0x1ffffec
    case 8 => 0x3ffffe2 case 9 => 0x3ffffe3 case 10 => 0x3ffffe4 case 11 => 0x7ffffde case 12 => 0x7ffffdf case 13 => 0x3ffffe5 case 14 => 0xfffff1 case _ => 0x1ffffed
  }

  function Code13(j: nat): nat {
    match j
    case 0 => 0x7fff2 case 1 => 0x1fffe3 case 2 => 0x3ffffe6 case 3 => 0x7ffffe0 case 4 => 0x7ffffe1 case 5 => 0x3ffffe7 case 6 => 0x7ffffe2 case 7 => 0xfffff2
    case 8 => 0x1fffe4 case 9 => 0x1fffe5 case 10 => 0x3ffffe8 case 11 => 0x3ffffe9 case 12 => 0xffffffd case 13 => 0x7ffffe3 case 14 => 0x7ffffe4 case _ => 0x7ffffe5
  }

  function Code14(j: nat): nat {
    match j
    case 0 => 0xfffec case 1 => 0xfffff3 case 2 => 0xfffed case 3 => 0x1fffe6 case 4 => 0x3fffe9 case 5 => 0x1fffe7 case 6 => 0x1fffe8 case 7 => 0x7ffff3
    case 8 => 0x3fffea case 9 => 0x3fffeb case 10 => 0x1ffffee case 11 => 0x1ffffef case 12 => 0xfffff4 case 13 => 0xfffff5 case 14 => 0x3ffffea case _ => 0x7ffff4
  }

  function Code15(j: nat): nat {
    match j
    case 0 => 0x3ffffeb case 1 => 0x7ffffe6 case 2 => 0x3ffffec case 3 => 0x3ffffed case 4 => 0x7ffffe7 case 5 => 0x7ffffe8 case 6 => 0x7ffffe9 case 7 => 0x7ffffea
    case 8 => 0x7ffffeb case 9 => 0xffffffe case 10 => 0x7ffffec case 11 => 0x7ffffed case 12 => 0x7ffffee case 13 => 0x7ffffef case 14 => 0x7fffff0 case _ => 0x3ffffee
  }

  function Code16(j: nat): nat {
    match j
    case _ => 0x3fffffff
  }

  // ---- lengths in bits

  function Length0(j: nat): nat {
    match j
    case 0 => 13 case 1 => 23 case 2 => 28 case 3 => 28 case 4 => 28 case 5 => 28 case 6 => 28 case 7 => 28
    case 8 => 28 case 9 => 24 case 10 => 30 case 11 => 28 case 12 => 28 case 13 => 30 case 14 => 28 case _ => 28
  }

  function Length1(j: nat): nat {
    match j
    case 0 => 28 case 1 => 28 case 2 => 28 case 3 => 28 case 4 => 28 case 5 => 28 case 6 => 30 case 7 => 28
    case 8 => 28 case 9 => 28 case 10 => 28 case 11 => 28 case 12 => 28 case 13 => 28 case 14 => 28 case _ => 28
  }

  function Length2(j: nat): nat {
    match j
    case 0 => 6 case 1 => 10 case 2 => 10 case 3 => 12 case 4 => 13 case 5 => 6 case 6 => 8 case 7 => 11
    case 8 => 10 case 9 => 10 case 10 => 8 case 11 => 11 case 12 => 8 case 13 => 6 case 14 => 6 case _ => 6
  }

  function Length3(j: nat): nat {
    match j
    case 0 => 5 case 1 => 5 case 2 => 5 case 3 => 6 case 4 => 6 case 5 => 6 case 6 => 6 case 7 => 6
    case 8 => 6 case 9 => 6 case 10 => 7 case 11 => 8 case 12 => 15 case 13 => 6 case 14 => 12 case _ => 10
  }

  function Length4(j: nat): nat {
    match j
    case 0 => 13 case 1 => 6 case 2 => 7 case 3 => 7 case 4 => 7 case 5 => 7 case 6 => 7 case 7 => 7
    case 8 => 7 case 9 => 7 case 10 => 7 case 11 => 7 case 12 => 7 case 13 => 7 case 14 => 7 case _ => 7
  }

  function Length5(j: nat): nat {
    match j
    case 0 => 7 case 1 => 7 case 2 => 7 case 3 => 7 case 4 => 7 case 5 => 7 case 6 => 7 case 7 => 7
    case 8 => 8 case 9 => 7 case 10 => 8 case 11 => 13 case 12 => 19 case 13 => 13 case 14 => 14 case _ => 6
  }

  function Length6(j: nat): nat {
    match j
    case 0 => 15 case 1 => 5 case 2 => 6 case 3 => 5 case 4 => 6 case 5 => 5 case 6 => 6 case 7 => 6
    case 8 => 6 case 9 => 5 case 10 => 7 case 11 => 7 case 12 => 6 case 13 => 6 case 14 => 6 case _ => 5
  }

  function Length7(j: nat): nat {
    match j
    case 0 => 6 case 1 => 7 case 2 => 6 case 3 => 5 case 4 => 5 case 5 => 6 case 6 => 7 case 7 => 7
    case 8 => 7 case 9 => 7 case 10 => 7 case 11 => 15 case 12 => 11 case 13 => 14 case 14 => 13 case _ => 28
  }

  function Length8(j: nat): nat {
    match j
    case 0 => 20 case 1 => 22 case 2 => 20 case 3 => 20 case 4 => 22 case 5 => 22 case 6 => 22 case 7 => 23
    case 8 => 22 case 9 => 23 case 10 => 23 case 11 => 23 case 12 => 23 case 13 => 23 case 14 => 24 case _ => 23
  }

  function Length9(j: nat): nat {
    match j
    case 0 => 24 case 1 => 24 case 2 => 22 case 3 => 23 case 4 => 24 case 5 => 23 case 6 => 23 case 7 => 23
    case 8 => 23 case 9 => 21 case 10 => 22 case 11 => 23 case 12 => 22 case 13 => 23 case 14 => 23 case _ => 24
  }

  function Length10(j: nat): nat {
    match j
    case 0 => 22 case 1 => 21 case 2 => 20 case 3 => 22 case 4 => 22 case 5 => 23 case 6 => 23 case 7 => 21
    case 8 => 23 case 9 => 22 case 10 => 22 case 11 => 24 case 12 => 21 case 13 => 22 case 14 => 23 case _ => 23
  }

  function Length11(j: nat): nat {
    match j
    case 0 => 21 case 1 => 21 case 2 => 22 case 3 => 21 case 4 => 23 case 5 => 22 case 6 => 23 case 7 => 23
    case 8 => 20 case 9 => 22 case 10 => 22 case 11 => 22 case 12 => 23 case 13 => 22 case 14 => 22 case _ => 23
  }

  function Length12(j: nat): nat {
    match j
    case 0 => 26 case 1 => 26 case 2 => 20 case 3 => 19 case 4 => 22 case 5 => 23 case 6 => 22 case 7 => 25
    case 8 => 26 case 9 => 26 case 10 => 26 case 11 => 27 case 12 => 27 case 13 => 26 case 14 => 24 case _ => 25
  }

  function Length13(j: nat): nat {
    match j
    case 0 => 19 case 1 => 21 case 2 => 26 case 3 => 27 case 4 => 27 case 5 => 26 case 6 => 27 case 7 => 24
    case 8 => 21 case 9 => 21 case 10 => 26 case 11 => 26 case 12 => 28 case 13 => 27 case 14 => 27 case _ => 27
  }

  function Length14(j: nat): nat {
    match j
    case 0 => 20 case 1 => 24 case 2 => 20 case 3 => 21 case 4 => 22 case 5 => 21 case 6 => 21 case 7 => 23
    case 8 => 22 case 9 => 22 case 10 => 25 case 11 => 25 case 12 => 24 case 13 => 24 case 14 => 26 case _ => 23
  }

  function Length15(j: nat): nat {
    match j
    case 0 => 26 case 1 => 27 case 2 => 26 case 3 => 26 case 4 => 27 case 5 => 27 case 6 => 27 case 7 => 27
    case 8 => 27 case 9 => 28 case 10 => 27 case 11 => 27 case 12 => 27 case 13 => 27 case 14 => 27 case _ => 26
  }

  function Length16(j: nat): nat {
    match j
    case _ => 30
  }

  // ---- symbols in the order of their codes, each padded to 32 bits

  function Symbol0(j: nat): nat {
    match j
    case 0 => 48 case 1 => 49 case 2 => 50 case 3 => 97 case 4 => 99 case 5 => 101 case 6 => 105 case 7 => 111
    case 8 => 115 case 9 => 116 case 10 => 32 case 11 => 37 case 12 => 45 case 13 => 46 case 14 => 47 case _ => 51
  }

  function Symbol1(j: nat): nat {
    match j
    case 0 => 52 case 1 => 53 case 2 => 54 case 3 => 55 case 4 => 56 case 5 => 57 case 6 => 61 case 7 => 65
    case 8 => 95 case 9 => 98 case 10 => 100 case 11 => 102 case 12 => 103 case 13 => 104 case 14 => 108 case _ => 109
  }

  function Symbol2(j: nat): nat {
    match j
    case 0 => 110 case 1 => 112 case 2 => 114 case 3 => 117 case 4 => 58 case 5 => 66 case 6 => 67 case 7 => 68
    case 8 => 69 case 9 => 70 case 10 => 71 case 11 => 72 case 12 => 73 case 13 => 74 case 14 => 75 case _ => 76
  }

  function Symbol3(j: nat): nat {
    match j
    case 0 => 77 case 1 => 78 case 2 => 79 case 3 => 80 case 4 => 81 case 5 => 82 case 6 => 83 case 7 => 84
    case 8 => 85 case 9 => 86 case 10 => 87 case 11 => 89 case 12 => 106 case 13 => 107 case 14 => 113 case _ => 118
  }

  function Symbol4(j: nat): nat {
    match j
    case 0 => 119 case 1 => 120 case 2 => 121 case 3 => 122 case 4 => 38 case 5 => 42 case 6 => 44 case 7 => 59
    case 8 => 88 case 9 => 90 case 10 => 33 case 11 => 34 case 12 => 40 case 13 => 41 case 14 => 63 case _ => 39
  }

  function Symbol5(j: nat): nat {
    match j
    case 0 => 43 case 1 => 124 case 2 => 35 case 3 => 62 case 4 => 0 case 5 => 36 case 6 => 64 case 7 => 91
    case 8 => 93 case 9 => 126 case 10 => 94 case 11 => 125 case 12 => 60 case 13 => 96 case 14 => 123 case _ => 92
  }

  function Symbol6(j: nat): nat {
    match j
    case 0 => 195 case 1 => 208 case 2 => 128 case 3 => 130 case 4 => 131 case 5 => 162 case 6 => 184 case 7 => 194
    case 8 => 224 case 9 => 226 case 10 => 153 case 11 => 161 case 12 => 167 case 13 => 172 case 14 => 176 case _ => 177
  }

  function Symbol7(j: nat): nat {
    match j
    case 0 => 179 case 1 => 209 case 2 => 216 case 3 => 217 case 4 => 227 case 5 => 229 case 6 => 230 case 7 => 129
    case 8 => 132 case 9 => 133 case 10 => 134 case 11 => 136 case 12 => 146 case 13 => 154 case 14 => 156 case _ => 160
  }

  function Symbol8(j: nat): nat {
    match j
    case 0 => 163 case 1 => 164 case 2 => 169 case 3 => 170 case 4 => 173 case 5 => 178 case 6 => 181 case 7 => 185
    case 8 => 186 case 9 => 187 case 10 => 189 case 11 => 190 case 12 => 196 case 13 => 198 case 14 => 228 case _ => 232
  }

  function Symbol9(j: nat): nat {
    match j
    case 0 => 233 case 1 => 1 case 2 => 135 case 3 => 137 case 4 => 138 case 5 => 139 case 6 => 140 case 7 => 141
    case 8 => 143 case 9 => 147 case 10 => 149 case 11 => 150 case 12 => 151 case 13 => 152 case 14 => 155 case _ => 157
  }

  function Symbol10(j: nat): nat {
    match j
    case 0 => 158 case 1 => 165 case 2 => 166 case 3 => 168 case 4 => 174 case 5 => 175 case 6 => 180 case 7 => 182
    case 8 => 183 case 9 => 188 case 10 => 191 case 11 => 197 case 12 => 231 case 13 => 239 case 14 => 9 case _ => 142
  }

  function Symbol11(j: nat): nat {
    match j
    case 0 => 144 case 1 => 145 case 2 => 148 case 3 => 159 case 4 => 171 case 5 => 206 case 6 => 215 case 7 => 225
    case 8 => 236 case 9 => 237 case 10 => 199 case 11 => 207 case 12 => 234 case 13 => 235 case 14 => 192 case _ => 193
  }

  function Symbol12(j: nat): nat {
    match j
    case 0 => 200 case 1 => 201 case 2 => 202 case 3 => 205 case 4 => 210 case 5 => 213 case 6 => 218 case 7 => 219
    case 8 => 238 case 9 => 240 case 10 => 242 case 11 => 243 case 12 => 255 case 13 => 203 case 14 => 204 case _ => 211
  }

  function Symbol13(j: nat): nat {
    match j
    case 0 => 212 case 1 => 214 case 2 => 221 case 3 => 222 case 4 => 223 case 5 => 241 case 6 => 244 case 7 => 245
    case 8 => 246 case 9 => 247 case 10 => 248 case 11 => 250 case 12 => 251 case 13 => 252 case 14 => 253 case _ => 254
  }

  function Symbol14(j: nat): nat {
    match j
    case 0 => 2 case 1 => 3 case 2 => 4 case 3 => 5 case 4 => 6 case 5 => 7 case 6 => 8 case 7 => 11
    case 8 => 12 case 9 => 14 case 10 => 15 case 11 => 16 case 12 => 17 case 13 => 18 case 14 => 19 case _ => 20
  }

  function Symbol15(j: nat): nat {
    match j
    case 0 => 21 case 1 => 23 case 2 => 24 case 3 => 25 case 4 => 26 case 5 => 27 case 6 => 28 case 7 => 29
    case 8 => 30 case 9 => 31 case 10 => 127 case 11 => 220 case 12 => 249 case 13 => 10 case 14 => 13 case _ => 22
  }

  function Symbol16(j: nat): nat {
    match j
    case _ => 256
  }

  /** The code of a symbol; 256 is EOS. */
  function CodeOf(s: nat): nat {
    match s / 16
    case 0 => Code0(s % 16) case 1 => Code1(s % 16) case 2 => Code2(s % 16) case 3 => Code3(s % 16)
    case 4 => Code4(s % 16) case 5 => Code5(s % 16) case 6 => Code6(s % 16) case 7 => Code7(s % 16)
    case 8 => Code8(s % 16) case 9 => Code9(s % 16) case 10 => Code10(s % 16) case 11 => Code11(s % 16)
    case 12 => Code12(s % 16) case 13 => Code13(s % 16) case 14 => Code14(s % 16) case 15 => Code15(s % 16)
    case _ => Code16(s % 16)
  }

  /** Its length. */
  function LengthOf(s: nat): nat {
    match s / 16
    case 0 => Length0(s % 16) case 1 => Length1(s % 16) case 2 => Length2(s % 16) case 3 => Length3(s % 16)
    case 4 => Length4(s % 16) case 5 => Length5(s % 16) case 6 => Length6(s % 16) case 7 => Length7(s % 16)
    case 8 => Length8(s % 16) case 9 => Length9(s % 16) case 10 => Length10(s % 16) case 11 => Length11(s % 16)
    case 12 => Length12(s % 16) case 13 => Length13(s % 16) case 14 => Length14(s % 16) case 15 => Length15(s % 16)
    case _ => Length16(s % 16)
  }

  /** The symbol with so many codes before its own. */
  function Nth(s: nat): nat {
    match s / 16
    case 0 => Symbol0(s % 16) case 1 => Symbol1(s % 16) case 2 => Symbol2(s % 16) case 3 => Symbol3(s % 16)
    case 4 => Symbol4(s % 16) case 5 => Symbol5(s % 16) case 6 => Symbol6(s % 16) case 7 => Symbol7(s % 16)
    case 8 => Symbol8(s % 16) case 9 => Symbol9(s % 16) case 10 => Symbol10(s % 16) case 11 => Symbol11(s % 16)
    case 12 => Symbol12(s % 16) case 13 => Symbol13(s % 16) case 14 => Symbol14(s % 16) case 15 => Symbol15(s % 16)
    case _ => Symbol16(s % 16)
  }

  /** The length of the n-th code: there are 21 lengths, each for a run of codes. */
  function LengthAt(n: nat): nat {
    if n < 10 then 5
    else if n < 36 then 6
    else if n < 68 then 7
    else if n < 74 then 8
    else if n < 79 then 10
    else if n < 82 then 11
    else if n < 84 then 12
    else if n < 90 then 13
    else if n < 92 then 14
    else if n < 95 then 15
    else if n < 98 then 19
    else if n < 106 then 20
    else if n < 119 then 21
    else if n < 145 then 22
    else if n < 174 then 23
    else if n < 186 then 24
    else if n < 190 then 25
    else if n < 205 then 26
    else if n < 224 then 27
    else if n < 253 then 28
    else 30
  }

  /** The n-th code: codes of one length count up. */
  function CodeAt(n: nat): int {
    if n < 10 then n
    else if n < 36 then 0x14 + n - 10
    else if n < 68 then 0x5c + n - 36
    else if n < 74 then 0xf8 + n - 68
    else if n < 79 then 0x3f8 + n - 74
    else if n < 82 then 0x7fa + n - 79
    else if n < 84 then 0xffa + n - 82
    else if n < 90 then 0x1ff8 + n - 84
    else if n < 92 then 0x3ffc + n - 90
    else if n < 95 then 0x7ffc + n - 92
    else if n < 98 then 0x7fff0 + n - 95
    else if n < 106 then 0xfffe6 + n - 98
    else if n < 119 then 0x1fffdc + n - 106
    else if n < 145 then 0x3fffd2 + n - 119
    else if n < 174 then 0x7fffd8 + n - 145
    else if n < 186 then 0xffffea + n - 174
    else if n < 190 then 0x1ffffec + n - 186
    else if n < 205 then 0x3ffffe0 + n - 190
    else if n < 224 then 0x7ffffde + n - 205
    else if n < 253 then 0xfffffe2 + n - 224
    else 0x3ffffffc + n - 253
  }

  /** The space, the letters and digits and a few marks. */
  predicate Short(s: nat) {
    || s == 32 || s == 37 || s == 38 || s == 42 || 44 <= s <= 59 || s == 61
    || 65 <= s <= 90 || s == 95 || 97 <= s <= 122
  }

  /** The n-th code belongs to the n-th symbol, and whether it fits in a byte shows in the symbol. */
  predicate Entry(n: nat) {
    var s := Nth(n);
    s < 257 && CodeOf(s) == CodeAt(n) && LengthOf(s) == LengthAt(n) && (Short(s) <==> LengthAt(n) <= 8)
  }

  lemma Entries0()
    ensures Entry(0) && Entry(1)
  {
  }

  lemma Entries1()
    ensures Entry(2) && Entry(3)
  {
  }

  lemma Entries2()
    ensures Entry(4) && Entry(5)
  {
  }

  lemma Entries3()
    ensures Entry(6) && Entry(7)
  {
  }

  lemma Entries4()
    ensures Entry(8) && Entry(9)
  {
  }

  lemma Entries5()
    ensures Entry(10) && Entry(11)
  {
  }

  lemma Entries6()
    ensures Entry(12) && Entry(13)
  {
  }

  lemma Entries7()
    ensures Entry(14) && Entry(15)
  {
  }

  lemma Entries8()
    ensures Entry(16) && Entry(17)
  {
  }

  lemma Entries9()
    ensures Entry(18) && Entry(19)
  {
  }

  lemma Entries10()
    ensures Entry(20) && Entry(21)
  {
  }

  lemma Entries11()
    ensures Entry(22) && Entry(23)
  {
  }

  lemma Entries12()
    ensures Entry(24) && Entry(25)
  {
  }

  lemma Entries13()
    ensures Entry(26) && Entry(27)
  {
  }

  lemma Entries14()
    ensures Entry(28) && Entry(29)
  {
  }

  lemma Entries15()
    ensures Entry(30) && Entry(31)
  {
  }

  lemma Entries16()
    ensures Entry(32) && Entry(33)
  {
  }

  lemma Entries17()
    ensures Entry(34) && Entry(35)
  {
  }

  lemma Entries18()
    ensures Entry(36) && Entry(37)
  {
  }

  lemma Entries19()
    ensures Entry(38) && Entry(39)
  {
  }

  lemma Entries20()
    ensures Entry(40) && Entry(41)
  {
  }

  lemma Entries21()
    ensures Entry(42) && Entry(43)
  {
  }

  lemma Entries22()
    ensures Entry(44) && Entry(45)
  {
  }

  lemma Entries23()
    ensures Entry(46) && Entry(47)
  {
  }

  lemma Entries24()
    ensures Entry(48) && Entry(49)
  {
  }

  lemma Entries25()
    ensures Entry(50) && Entry(51)
  {
  }

  lemma Entries26()
    ensures Entry(52) && Entry(53)
  {
  }

  lemma Entries27()
    ensures Entry(54) && Entry(55)
  {
  }

  lemma Entries28()
    ensures Entry(56) && Entry(57)
  {
  }

  lemma Entries29()
    ensures Entry(58) && Entry(59)
  {
  }

  lemma Entries30()
    ensures Entry(60) && Entry(61)
  {
  }

  lemma Entries31()
    ensures Entry(62) && Entry(63)
  {
  }

  lemma Entries32()
    ensures Entry(64) && Entry(65)
  {
  }

  lemma Entries33()
    ensures Entry(66) && Entry(67)
  {
  }

  lemma Entries34()
    ensures Entry(68) && Entry(69)
  {
  }

  lemma Entries35()
    ensures Entry(70) && Entry(71)
  {
  }

  lemma Entries36()
    ensures Entry(72) && Entry(73)
  {
  }

  lemma Entries37()
    ensures Entry(74) && Entry(75)
  {
  }

  lemma Entries38()
    ensures Entry(76) && Entry(77)
  {
  }

  lemma Entries39()
    ensures Entry(78) && Entry(79)
  {
  }

  lemma Entries40()
    ensures Entry(80) && Entry(81)
  {
  }

  lemma Entries41()
    ensures Entry(82) && Entry(83)
  {
  }

  lemma Entries42()
    ensures Entry(84) && Entry(85)
  {
  }

  lemma Entries43()
    ensures Entry(86) && Entry(87)
  {
  }

  lemma Entries44()
    ensures Entry(88) && Entry(89)
  {
  }

  lemma Entries45()
    ensures Entry(90) && Entry(91)
  {
  }

  lemma Entries46()
    ensures Entry(92) && Entry(93)
  {
  }

  lemma Entries47()
    ensures Entry(94) && Entry(95)
  {
  }

  lemma Entries48()
    ensures Entry(96) && Entry(97)
  {
  }

  lemma Entries49()
    ensures Entry(98) && Entry(99)
  {
  }

  lemma Entries50()
    ensures Entry(100) && Entry(101)
  {
  }

  lemma Entries51()
    ensures Entry(102) && Entry(103)
  {
  }

  lemma Entries52()
    ensures Entry(104) && Entry(105)
  {
  }

  lemma Entries53()
    ensures Entry(106) && Entry(107)
  {
  }

  lemma Entries54()
    ensures Entry(108) && Entry(109)
  {
  }

  lemma Entries55()
    ensures Entry(110) && Entry(111)
  {
  }

  lemma Entries56()
    ensures Entry(112) && Entry(113)
  {
  }

  lemma Entries57()
    ensures Entry(114) && Entry(115)
  {
  }

  lemma Entries58()
    ensures Entry(116) && Entry(117)
  {
  }

  lemma Entries59()
    ensures Entry(118) && Entry(119)
  {
  }

  lemma Entries60()
    ensures Entry(120) && Entry(121)
  {
  }

  lemma Entries61()
    ensures Entry(122) && Entry(123)
  {
  }

  lemma Entries62()
    ensures Entry(124) && Entry(125)
  {
  }

  lemma Entries63()
    ensures Entry(126) && Entry(127)
  {
  }

  lemma Entries64()
    ensures Entry(128) && Entry(129)
  {
  }

  lemma Entries65()
    ensures Entry(130) && Entry(131)
  {
  }

  lemma Entries66()
    ensures Entry(132) && Entry(133)
  {
  }

  lemma Entries67()
    ensures Entry(134) && Entry(135)
  {
  }

  lemma Entries68()
    ensures Entry(136) && Entry(137)
  {
  }

  lemma Entries69()
    ensures Entry(138) && Entry(139)
  {
  }

  lemma Entries70()
    ensures Entry(140) && Entry(141)
  {
  }

  lemma Entries71()
    ensures Entry(142) && Entry(143)
  {
  }

  lemma Entries72()
    ensures Entry(144) && Entry(145)
  {
  }

  lemma Entries73()
    ensures Entry(146) && Entry(147)
  {
  }

  lemma Entries74()
    ensures Entry(148) && Entry(149)
  {
  }

  lemma Entries75()
    ensures Entry(150) && Entry(151)
  {
  }

  lemma Entries76()
    ensures Entry(152) && Entry(153)
  {
  }

  lemma Entries77()
    ensures Entry(154) && Entry(155)
  {
  }

  lemma Entries78()
    ensures Entry(156) && Entry(157)
  {
  }

  lemma Entries79()
    ensures Entry(158) && Entry(159)
  {
  }

  lemma Entries80()
    ensures Entry(160) && Entry(161)
  {
  }

  lemma Entries81()
    ensures Entry(162) && Entry(163)
  {
  }

  lemma Entries82()
    ensures Entry(164) && Entry(165)
  {
  }

  lemma Entries83()
    ensures Entry(166) && Entry(167)
  {
  }

  lemma Entries84()
    ensures Entry(168) && Entry(169)
  {
  }

  lemma Entries85()
    ensures Entry(170) && Entry(171)
  {
  }

  lemma Entries86()
    ensures Entry(172) && Entry(173)
  {
  }

  lemma Entries87()
    ensures Entry(174) && Entry(175)
  {
  }

  lemma Entries88()
    ensures Entry(176) && Entry(177)
  {
  }

  lemma Entries89()
    ensures Entry(178) && Entry(179)
  {
  }

  lemma Entries90()
    ensures Entry(180) && Entry(181)
  {
  }

  lemma Entries91()
    ensures Entry(182) && Entry(183)
  {
  }

  lemma Entries92()
    ensures Entry(184) && Entry(185)
  {
  }

  lemma Entries93()
    ensures Entry(186) && Entry(187)
  {
  }

  lemma Entries94()
    ensures Entry(188) && Entry(189)
  {
  }

  lemma Entries95()
    ensures Entry(190) && Entry(191)
  {
  }

  lemma Entries96()
    ensures Entry(192) && Entry(193)
  {
  }

  lemma Entries97()
    ensures Entry(194) && Entry(195)
  {
  }

  lemma Entries98()
    ensures Entry(196) && Entry(197)
  {
  }

  lemma Entries99()
    ensures Entry(198) && Entry(199)
  {
  }

  lemma Entries100()
    ensures Entry(200) && Entry(201)
  {
  }

  lemma Entries101()
    ensures Entry(202) && Entry(203)
  {
  }

  lemma Entries102()
    ensures Entry(204) && Entry(205)
  {
  }

  lemma Entries103()
    ensures Entry(206) && Entry(207)
  {
  }

  lemma Entries104()
    ensures Entry(208) && Entry(209)
  {
  }

  lemma Entries105()
    ensures Entry(210) && Entry(211)
  {
  }

  lemma Entries106()
    ensures Entry(212) && Entry(213)
  {
  }

  lemma Entries107()
    ensures Entry(214) && Entry(215)
  {
  }

  lemma Entries108()
    ensures Entry(216) && Entry(217)
  {
  }

  lemma Entries109()
    ensures Entry(218) && Entry(219)
  {
  }

  lemma Entries110()
    ensures Entry(220) && Entry(221)
  {
  }

  lemma Entries111()
    ensures Entry(222) && Entry(223)
  {
  }

  lemma Entries112()
    ensures Entry(224) && Entry(225)
  {
  }

  lemma Entries113()
    ensures Entry(226) && Entry(227)
  {
  }

  lemma Entries114()
    ensures Entry(228) && Entry(229)
  {
  }

  lemma Entries115()
    ensures Entry(230) && Entry(231)
  {
  }

  lemma Entries116()
    ensures Entry(232) && Entry(233)
  {
  }

  lemma Entries117()
    ensures Entry(234) && Entry(235)
  {
  }

  lemma Entries118()
    ensures Entry(236) && Entry(237)
  {
  }

  lemma Entries119()
    ensures Entry(238) && Entry(239)
  {
  }

  lemma Entries120()
    ensures Entry(240) && Entry(241)
  {
  }

  lemma Entries121()
    ensures Entry(242) && Entry(243)
  {
  }

  lemma Entries122()
    ensures Entry(244) && Entry(245)
  {
  }

  lemma Entries123()
    ensures Entry(246) && Entry(247)
  {
  }

  lemma Entries124()
    ensures Entry(248) && Entry(249)
  {
  }

  lemma Entries125()
    ensures Entry(250) && Entry(251)
  {
  }

  lemma Entries126()
    ensures Entry(252) && Entry(253)
  {
  }

  lemma Entries127()
    ensures Entry(254) && Entry(255)
  {
  }

  lemma LastEntry()
    ensures Entry(256) && Nth(256) == 256
  {
  }

  lemma Entries0To63(n: nat)
    requires 0 <= n < 64
    ensures Entry(n)
  {
    hide Entry;
    if n < 2 { Entries0(); } else if n < 4 { Entries1(); } else if n < 6 { Entries2(); } else if n < 8 { Entries3(); } else
    if n < 10 { Entries4(); } else if n < 12 { Entries5(); } else if n < 14 { Entries6(); } else if n < 16 { Entries7(); } else
    if n < 18 { Entries8(); } else if n < 20 { Entries9(); } else if n < 22 { Entries10(); } else if n < 24 { Entries11(); } else
    if n < 26 { Entries12(); } else if n < 28 { Entries13(); } else if n < 30 { Entries14(); } else if n < 32 { Entries15(); } else
    if n < 34 { Entries16(); } else if n < 36 { Entries17(); } else if n < 38 { Entries18(); } else if n < 40 { Entries19(); } else
    if n < 42 { Entries20(); } else if n < 44 { Entries21(); } else if n < 46 { Entries22(); } else if n < 48 { Entries23(); } else
    if n < 50 { Entries24(); } else if n < 52 { Entries25(); } else if n < 54 { Entries26(); } else if n < 56 { Entries27(); } else
    if n < 58 { Entries28(); } else if n < 60 { Entries29(); } else if n < 62 { Entries30(); } else { Entries31(); }
  }

  lemma Entries64To127(n: nat)
    requires 64 <= n < 128
    ensures Entry(n)
  {
    hide Entry;
    if n < 66 { Entries32(); } else if n < 68 { Entries33(); } else if n < 70 { Entries34(); } else if n < 72 { Entries35(); } else
    if n < 74 { Entries36(); } else if n < 76 { Entries37(); } else if n < 78 { Entries38(); } else if n < 80 { Entries39(); } else
    if n < 82 { Entries40(); } else if n < 84 { Entries41(); } else if n < 86 { Entries42(); } else if n < 88 { Entries43(); } else
    if n < 90 { Entries44(); } else if n < 92 { Entries45(); } else if n < 94 { Entries46(); } else if n < 96 { Entries47(); } else
    if n < 98 { Entries48(); } else if n < 100 { Entries49(); } else if n < 102 { Entries50(); } else if n < 104 { Entries51(); } else
    if n < 106 { Entries52(); } else if n < 108 { Entries53(); } else if n < 110 { Entries54(); } else if n < 112 { Entries55(); } else
    if n < 114 { Entries56(); } else if n < 116 { Entries57(); } else if n < 118 { Entries58(); } else if n < 120 { Entries59(); } else
    if n < 122 { Entries60(); } else if n < 124 { Entries61(); } else if n < 126 { Entries62(); } else { Entries63(); }
  }

  lemma Entries128To191(n: nat)
    requires 128 <= n < 192
    ensures Entry(n)
  {
    hide Entry;
    if n < 130 { Entries64(); } else if n < 132 { Entries65(); } else if n < 134 { Entries66(); } else if n < 136 { Entries67(); } else
    if n < 138 { Entries68(); } else if n < 140 { Entries69(); } else if n < 142 { Entries70(); } else if n < 144 { Entries71(); } else
    if n < 146 { Entries72(); } else if n < 148 { Entries73(); } else if n < 150 { Entries74(); } else if n < 152 { Entries75(); } else
    if n < 154 { Entries76(); } else if n < 156 { Entries77(); } else if n < 158 { Entries78(); } else if n < 160 { Entries79(); } else
    if n < 162 { Entries80(); } else if n < 164 { Entries81(); } else if n < 166 { Entries82(); } else if n < 168 { Entries83(); } else
    if n < 170 { Entries84(); } else if n < 172 { Entries85(); } else if n < 174 { Entries86(); } else if n < 176 { Entries87(); } else
    if n < 178 { Entries88(); } else if n < 180 { Entries89(); } else if n < 182 { Entries90(); } else if n < 184 { Entries91(); } else
    if n < 186 { Entries92(); } else if n < 188 { Entries93(); } else if n < 190 { Entries94(); } else { Entries95(); }
  }

  lemma Entries192To255(n: nat)
    requires 192 <= n < 256
    ensures Entry(n)
  {
    hide Entry;
    if n < 194 { Entries96(); } else if n < 196 { Entries97(); } else if n < 198 { Entries98(); } else if n < 200 { Entries99(); } else
    if n < 202 { Entries100(); } else if n < 204 { Entries101(); } else if n < 206 { Entries102(); } else if n < 208 { Entries103(); } else
    if n < 210 { Entries104(); } else if n < 212 { Entries105(); } else if n < 214 { Entries106(); } else if n < 216 { Entries107(); } else
    if n < 218 { Entries108(); } else if n < 220 { Entries109(); } else if n < 222 { Entries110(); } else if n < 224 { Entries111(); } else
    if n < 226 { Entries112(); } else if n < 228 { Entries113(); } else if n < 230 { Entries114(); } else if n < 232 { Entries115(); } else
    if n < 234 { Entries116(); } else if n < 236 { Entries117(); } else if n < 238 { Entries118(); } else if n < 240 { Entries119(); } else
    if n < 242 { Entries120(); } else if n < 244 { Entries121(); } else if n < 246 { Entries122(); } else if n < 248 { Entries123(); } else
    if n < 250 { Entries124(); } else if n < 252 { Entries125(); } else if n < 254 { Entries126(); } else { Entries127(); }
  }

  lemma AllEntries(n: nat)
    requires n <= 256
    ensures Entry(n)
  {
    hide Entry;
    if n < 64 { Entries0To63(n); }
    else if n < 128 { Entries64To127(n); }
    else if n < 192 { Entries128To191(n); }
    else if n < 256 { Entries192To255(n); }
    else { LastEntry(); }
  }
}
