/** The look-up tables of src/crc, eight entries to a row, and the proof that every entry is
    what eight clocks of the bit-at-a-time register make of its index. */
module CrcTables {
  import opened Crc

  /** The entry of a row that the low three bits of i select. */
  function Row(i: bv8, e0: bv32, e1: bv32, e2: bv32, e3: bv32, e4: bv32, e5: bv32, e6: bv32, e7: bv32): bv32 {
    if i & 4 == 0 then
      (if i & 2 == 0 then (if i & 1 == 0 then e0 else e1) else (if i & 1 == 0 then e2 else e3))
    else
      (if i & 2 == 0 then (if i & 1 == 0 then e4 else e5) else (if i & 1 == 0 then e6 else e7))
  }

  function ArcTable(i: bv8): bv32 {
    if i < 0x08 then Row(i, 0x0000, 0xc0c1, 0xc181, 0x0140, 0xc301, 0x03c0, 0x0280, 0xc241)
    else if i < 0x10 then Row(i, 0xc601, 0x06c0, 0x0780, 0xc741, 0x0500, 0xc5c1, 0xc481, 0x0440)
    else if i < 0x18 then Row(i, 0xcc01, 0x0cc0, 0x0d80, 0xcd41, 0x0f00, 0xcfc1, 0xce81, 0x0e40)
    else if i < 0x20 then Row(i, 0x0a00, 0xcac1, 0xcb81, 0x0b40, 0xc901, 0x09c0, 0x0880, 0xc841)
    else if i < 0x28 then Row(i, 0xd801, 0x18c0, 0x1980, 0xd941, 0x1b00, 0xdbc1, 0xda81, 0x1a40)
    else if i < 0x30 then Row(i, 0x1e00, 0xdec1, 0xdf81, 0x1f40, 0xdd01, 0x1dc0, 0x1c80, 0xdc41)
    else if i < 0x38 then Row(i, 0x1400, 0xd4c1, 0xd581, 0x1540, 0xd701, 0x17c0, 0x1680, 0xd641)
    else if i < 0x40 then Row(i, 0xd201, 0x12c0, 0x1380, 0xd341, 0x1100, 0xd1c1, 0xd081, 0x1040)
    else if i < 0x48 then Row(i, 0xf001, 0x30c0, 0x3180, 0xf141, 0x3300, 0xf3c1, 0xf281, 0x3240)
    else if i < 0x50 then Row(i, 0x3600, 0xf6c1, 0xf781, 0x3740, 0xf501, 0x35c0, 0x3480, 0xf441)
    else if i < 0x58 then Row(i, 0x3c00, 0xfcc1, 0xfd81, 0x3d40, 0xff01, 0x3fc0, 0x3e80, 0xfe41)
    else if i < 0x60 then Row(i, 0xfa01, 0x3ac0, 0x3b80, 0xfb41, 0x3900, 0xf9c1, 0xf881, 0x3840)
    else if i < 0x68 then Row(i, 0x2800, 0xe8c1, 0xe981, 0x2940, 0xeb01, 0x2bc0, 0x2a80, 0xea41)
    else if i < 0x70 then Row(i, 0xee01, 0x2ec0, 0x2f80, 0xef41, 0x2d00, 0xedc1, 0xec81, 0x2c40)
    else if i < 0x78 then Row(i, 0xe401, 0x24c0, 0x2580, 0xe541, 0x2700, 0xe7c1, 0xe681, 0x2640)
    else if i < 0x80 then Row(i, 0x2200, 0xe2c1, 0xe381, 0x2340, 0xe101, 0x21c0, 0x2080, 0xe041)
    else if i < 0x88 then Row(i, 0xa001, 0x60c0, 0x6180, 0xa141, 0x6300, 0xa3c1, 0xa281, 0x6240)
    else if i < 0x90 then Row(i, 0x6600, 0xa6c1, 0xa781, 0x6740, 0xa501, 0x65c0, 0x6480, 0xa441)
    else if i < 0x98 then Row(i, 0x6c00, 0xacc1, 0xad81, 0x6d40, 0xaf01, 0x6fc0, 0x6e80, 0xae41)
    else if i < 0xa0 then Row(i, 0xaa01, 0x6ac0, 0x6b80, 0xab41, 0x6900, 0xa9c1, 0xa881, 0x6840)
    else if i < 0xa8 then Row(i, 0x7800, 0xb8c1, 0xb981, 0x7940, 0xbb01, 0x7bc0, 0x7a80, 0xba41)
    else if i < 0xb0 then Row(i, 0xbe01, 0x7ec0, 0x7f80, 0xbf41, 0x7d00, 0xbdc1, 0xbc81, 0x7c40)
    else if i < 0xb8 then Row(i, 0xb401, 0x74c0, 0x7580, 0xb541, 0x7700, 0xb7c1, 0xb681, 0x7640)
    else if i < 0xc0 then Row(i, 0x7200, 0xb2c1, 0xb381, 0x7340, 0xb101, 0x71c0, 0x7080, 0xb041)
    else if i < 0xc8 then Row(i, 0x5000, 0x90c1, 0x9181, 0x5140, 0x9301, 0x53c0, 0x5280, 0x9241)
    else if i < 0xd0 then Row(i, 0x9601, 0x56c0, 0x5780, 0x9741, 0x5500, 0x95c1, 0x9481, 0x5440)
    else if i < 0xd8 then Row(i, 0x9c01, 0x5cc0, 0x5d80, 0x9d41, 0x5f00, 0x9fc1, 0x9e81, 0x5e40)
    else if i < 0xe0 then Row(i, 0x5a00, 0x9ac1, 0x9b81, 0x5b40, 0x9901, 0x59c0, 0x5880, 0x9841)
    else if i < 0xe8 then Row(i, 0x8801, 0x48c0, 0x4980, 0x8941, 0x4b00, 0x8bc1, 0x8a81, 0x4a40)
    else if i < 0xf0 then Row(i, 0x4e00, 0x8ec1, 0x8f81, 0x4f40, 0x8d01, 0x4dc0, 0x4c80, 0x8c41)
    else if i < 0xf8 then Row(i, 0x4400, 0x84c1, 0x8581, 0x4540, 0x8701, 0x47c0, 0x4680, 0x8641)
    else Row(i, 0x8201, 0x42c0, 0x4380, 0x8341, 0x4100, 0x81c1, 0x8081, 0x4040)
  }

  lemma ArcTableEntries(i: bv8)
    ensures ArcTable(i) == RightEntry(0xa001, 0xffff, i as bv32)
  {
  }

  lemma ArcTableCorrect(i: bv8)
    ensures ArcTable(i) == Step8(Arc, Align(Arc, i))
  {
    ArcTableEntries(i);
    RightEntryClocks(Arc, Align(Arc, i));
  }

  function BinhexTable(i: bv8): bv32 {
    if i < 0x08 then Row(i, 0x0000, 0x1021, 0x2042, 0x3063, 0x4084, 0x50a5, 0x60c6, 0x70e7)
    else if i < 0x10 then Row(i, 0x8108, 0x9129, 0xa14a, 0xb16b, 0xc18c, 0xd1ad, 0xe1ce, 0xf1ef)
    else if i < 0x18 then Row(i, 0x1231, 0x0210, 0x3273, 0x2252, 0x52b5, 0x4294, 0x72f7, 0x62d6)
    else if i < 0x20 then Row(i, 0x9339, 0x8318, 0xb37b, 0xa35a, 0xd3bd, 0xc39c, 0xf3ff, 0xe3de)
    else if i < 0x28 then Row(i, 0x2462, 0x3443, 0x0420, 0x1401, 0x64e6, 0x74c7, 0x44a4, 0x5485)
    else if i < 0x30 then Row(i, 0xa56a, 0xb54b, 0x8528, 0x9509, 0xe5ee, 0xf5cf, 0xc5ac, 0xd58d)
    else if i < 0x38 then Row(i, 0x3653, 0x2672, 0x1611, 0x0630, 0x76d7, 0x66f6, 0x5695, 0x46b4)
    else if i < 0x40 then Row(i, 0xb75b, 0xa77a, 0x9719, 0x8738, 0xf7df, 0xe7fe, 0xd79d, 0xc7bc)
    else if i < 0x48 then Row(i, 0x48c4, 0x58e5, 0x6886, 0x78a7, 0x0840, 0x1861, 0x2802, 0x3823)
    else if i < 0x50 then Row(i, 0xc9cc, 0xd9ed, 0xe98e, 0xf9af, 0x8948, 0x9969, 0xa90a, 0xb92b)
    else if i < 0x58 then Row(i, 0x5af5, 0x4ad4, 0x7ab7, 0x6a96, 0x1a71, 0x0a50, 0x3a33, 0x2a12)
    else if i < 0x60 then Row(i, 0xdbfd, 0xcbdc, 0xfbbf, 0xeb9e, 0x9b79, 0x8b58, 0xbb3b, 0xab1a)
    else if i < 0x68 then Row(i, 0x6ca6, 0x7c87, 0x4ce4, 0x5cc5, 0x2c22, 0x3c03, 0x0c60, 0x1c41)
    else if i < 0x70 then Row(i, 0xedae, 0xfd8f, 0xcdec, 0xddcd, 0xad2a, 0xbd0b, 0x8d68, 0x9d49)
    else if i < 0x78 then Row(i, 0x7e97, 0x6eb6, 0x5ed5, 0x4ef4, 0x3e13, 0x2e32, 0x1e51, 0x0e70)
    else if i < 0x80 then Row(i, 0xff9f, 0xefbe, 0xdfdd, 0xcffc, 0xbf1b, 0xaf3a, 0x9f59, 0x8f78)
    else if i < 0x88 then Row(i, 0x9188, 0x81a9, 0xb1ca, 0xa1eb, 0xd10c, 0xc12d, 0xf14e, 0xe16f)
    else if i < 0x90 then Row(i, 0x1080, 0x00a1, 0x30c2, 0x20e3, 0x5004, 0x4025, 0x7046, 0x6067)
    else if i < 0x98 then Row(i, 0x83b9, 0x9398, 0xa3fb, 0xb3da, 0xc33d, 0xd31c, 0xe37f, 0xf35e)
    else if i < 0xa0 then Row(i, 0x02b1, 0x1290, 0x22f3, 0x32d2, 0x4235, 0x5214, 0x6277, 0x7256)
    else if i < 0xa8 then Row(i, 0xb5ea, 0xa5cb, 0x95a8, 0x8589, 0xf56e, 0xe54f, 0xd52c, 0xc50d)
    else if i < 0xb0 then Row(i, 0x34e2, 0x24c3, 0x14a0, 0x0481, 0x7466, 0x6447, 0x5424, 0x4405)
    else if i < 0xb8 then Row(i, 0xa7db, 0xb7fa, 0x8799, 0x97b8, 0xe75f, 0xf77e, 0xc71d, 0xd73c)
    else if i < 0xc0 then Row(i, 0x26d3, 0x36f2, 0x0691, 0x16b0, 0x6657, 0x7676, 0x4615, 0x5634)
    else if i < 0xc8 then Row(i, 0xd94c, 0xc96d, 0xf90e, 0xe92f, 0x99c8, 0x89e9, 0xb98a, 0xa9ab)
    else if i < 0xd0 then Row(i, 0x5844, 0x4865, 0x7806, 0x6827, 0x18c0, 0x08e1, 0x3882, 0x28a3)
    else if i < 0xd8 then Row(i, 0xcb7d, 0xdb5c, 0xeb3f, 0xfb1e, 0x8bf9, 0x9bd8, 0xabbb, 0xbb9a)
    else if i < 0xe0 then Row(i, 0x4a75, 0x5a54, 0x6a37, 0x7a16, 0x0af1, 0x1ad0, 0x2ab3, 0x3a92)
    else if i < 0xe8 then Row(i, 0xfd2e, 0xed0f, 0xdd6c, 0xcd4d, 0xbdaa, 0xad8b, 0x9de8, 0x8dc9)
    else if i < 0xf0 then Row(i, 0x7c26, 0x6c07, 0x5c64, 0x4c45, 0x3ca2, 0x2c83, 0x1ce0, 0x0cc1)
    else if i < 0xf8 then Row(i, 0xef1f, 0xff3e, 0xcf5d, 0xdf7c, 0xaf9b, 0xbfba, 0x8fd9, 0x9ff8)
    else Row(i, 0x6e17, 0x7e36, 0x4e55, 0x5e74, 0x2e93, 0x3eb2, 0x0ed1, 0x1ef0)
  }

  lemma BinhexTableEntries(i: bv8)
    ensures BinhexTable(i) == LeftEntry(0x1021, 0x8000, 0xffff, (i as bv32) << 8)
  {
  }

  lemma BinhexTableCorrect(i: bv8)
    ensures BinhexTable(i) == Step8(Binhex, Align(Binhex, i))
  {
    BinhexTableEntries(i);
    LeftEntryClocks(Binhex, Align(Binhex, i));
  }

  function KermitTable(i: bv8): bv32 {
    if i < 0x08 then Row(i, 0x0000, 0x1189, 0x2312, 0x329b, 0x4624, 0x57ad, 0x6536, 0x74bf)
    else if i < 0x10 then Row(i, 0x8c48, 0x9dc1, 0xaf5a, 0xbed3, 0xca6c, 0xdbe5, 0xe97e, 0xf8f7)
    else if i < 0x18 then Row(i, 0x1081, 0x0108, 0x3393, 0x221a, 0x56a5, 0x472c, 0x75b7, 0x643e)
    else if i < 0x20 then Row(i, 0x9cc9, 0x8d40, 0xbfdb, 0xae52, 0xdaed, 0xcb64, 0xf9ff, 0xe876)
    else if i < 0x28 then Row(i, 0x2102, 0x308b, 0x0210, 0x1399, 0x6726, 0x76af, 0x4434, 0x55bd)
    else if i < 0x30 then Row(i, 0xad4a, 0xbcc3, 0x8e58, 0x9fd1, 0xeb6e, 0xfae7, 0xc87c, 0xd9f5)
    else if i < 0x38 then Row(i, 0x3183, 0x200a, 0x1291, 0x0318, 0x77a7, 0x662e, 0x54b5, 0x453c)
    else if i < 0x40 then Row(i, 0xbdcb, 0xac42, 0x9ed9, 0x8f50, 0xfbef, 0xea66, 0xd8fd, 0xc974)
    else if i < 0x48 then Row(i, 0x4204, 0x538d, 0x6116, 0x709f, 0x0420, 0x15a9, 0x2732, 0x36bb)
    else if i < 0x50 then Row(i, 0xce4c, 0xdfc5, 0xed5e, 0xfcd7, 0x8868, 0x99e1, 0xab7a, 0xbaf3)
    else if i < 0x58 then Row(i, 0x5285, 0x430c, 0x7197, 0x601e, 0x14a1, 0x0528, 0x37b3, 0x263a)
    else if i < 0x60 then Row(i, 0xdecd, 0xcf44, 0xfddf, 0xec56, 0x98e9, 0x8960, 0xbbfb, 0xaa72)
    else if i < 0x68 then Row(i, 0x6306, 0x728f, 0x4014, 0x519d, 0x2522, 0x34ab, 0x0630, 0x17b9)
    else if i < 0x70 then Row(i, 0xef4e, 0xfec7, 0xcc5c, 0xddd5, 0xa96a, 0xb8e3, 0x8a78, 0x9bf1)
    else if i < 0x78 then Row(i, 0x7387, 0x620e, 0x5095, 0x411c, 0x35a3, 0x242a, 0x16b1, 0x0738)
    else if i < 0x80 then Row(i, 0xffcf, 0xee46, 0xdcdd, 0xcd54, 0xb9eb, 0xa862, 0x9af9, 0x8b70)
    else if i < 0x88 then Row(i, 0x8408, 0x9581, 0xa71a, 0xb693, 0xc22c, 0xd3a5, 0xe13e, 0xf0b7)
    else if i < 0x90 then Row(i, 0x0840, 0x19c9, 0x2b52, 0x3adb, 0x4e64, 0x5fed, 0x6d76, 0x7cff)
    else if i < 0x98 then Row(i, 0x9489, 0x8500, 0xb79b, 0xa612, 0xd2ad, 0xc324, 0xf1bf, 0xe036)
    else if i < 0xa0 then Row(i, 0x18c1, 0x0948, 0x3bd3, 0x2a5a, 0x5ee5, 0x4f6c, 0x7df7, 0x6c7e)
    else if i < 0xa8 then Row(i, 0xa50a, 0xb483, 0x8618, 0x9791, 0xe32e, 0xf2a7, 0xc03c, 0xd1b5)
    else if i < 0xb0 then Row(i, 0x2942, 0x38cb, 0x0a50, 0x1bd9, 0x6f66, 0x7eef, 0x4c74, 0x5dfd)
    else if i < 0xb8 then Row(i, 0xb58b, 0xa402, 0x9699, 0x8710, 0xf3af, 0xe226, 0xd0bd, 0xc134)
    else if i < 0xc0 then Row(i, 0x39c3, 0x284a, 0x1ad1, 0x0b58, 0x7fe7, 0x6e6e, 0x5cf5, 0x4d7c)
    else if i < 0xc8 then Row(i, 0xc60c, 0xd785, 0xe51e, 0xf497, 0x8028, 0x91a1, 0xa33a, 0xb2b3)
    else if i < 0xd0 then Row(i, 0x4a44, 0x5bcd, 0x6956, 0x78df, 0x0c60, 0x1de9, 0x2f72, 0x3efb)
    else if i < 0xd8 then Row(i, 0xd68d, 0xc704, 0xf59f, 0xe416, 0x90a9, 0x8120, 0xb3bb, 0xa232)
    else if i < 0xe0 then Row(i, 0x5ac5, 0x4b4c, 0x79d7, 0x685e, 0x1ce1, 0x0d68, 0x3ff3, 0x2e7a)
    else if i < 0xe8 then Row(i, 0xe70e, 0xf687, 0xc41c, 0xd595, 0xa12a, 0xb0a3, 0x8238, 0x93b1)
    else if i < 0xf0 then Row(i, 0x6b46, 0x7acf, 0x4854, 0x59dd, 0x2d62, 0x3ceb, 0x0e70, 0x1ff9)
    else if i < 0xf8 then Row(i, 0xf78f, 0xe606, 0xd49d, 0xc514, 0xb1ab, 0xa022, 0x92b9, 0x8330)
    else Row(i, 0x7bc7, 0x6a4e, 0x58d5, 0x495c, 0x3de3, 0x2c6a, 0x1ef1, 0x0f78)
  }

  lemma KermitTableEntries(i: bv8)
    ensures KermitTable(i) == RightEntry(0x8408, 0xffff, i as bv32)
  {
  }

  lemma KermitTableCorrect(i: bv8)
    ensures KermitTable(i) == Step8(Kermit, Align(Kermit, i))
  {
    KermitTableEntries(i);
    RightEntryClocks(Kermit, Align(Kermit, i));
  }

  function CcittTable(i: bv8): bv32 {
    if i < 0x08 then Row(i, 0x0000, 0x1021, 0x2042, 0x3063, 0x4084, 0x50a5, 0x60c6, 0x70e7)
    else if i < 0x10 then Row(i, 0x8108, 0x9129, 0xa14a, 0xb16b, 0xc18c, 0xd1ad, 0xe1ce, 0xf1ef)
    else if i < 0x18 then Row(i, 0x1231, 0x0210, 0x3273, 0x2252, 0x52b5, 0x4294, 0x72f7, 0x62d6)
    else if i < 0x20 then Row(i, 0x9339, 0x8318, 0xb37b, 0xa35a, 0xd3bd, 0xc39c, 0xf3ff, 0xe3de)
    else if i < 0x28 then Row(i, 0x2462, 0x3443, 0x0420, 0x1401, 0x64e6, 0x74c7, 0x44a4, 0x5485)
    else if i < 0x30 then Row(i, 0xa56a, 0xb54b, 0x8528, 0x9509, 0xe5ee, 0xf5cf, 0xc5ac, 0xd58d)
    else if i < 0x38 then Row(i, 0x3653, 0x2672, 0x1611, 0x0630, 0x76d7, 0x66f6, 0x5695, 0x46b4)
    else if i < 0x40 then Row(i, 0xb75b, 0xa77a, 0x9719, 0x8738, 0xf7df, 0xe7fe, 0xd79d, 0xc7bc)
    else if i < 0x48 then Row(i, 0x48c4, 0x58e5, 0x6886, 0x78a7, 0x0840, 0x1861, 0x2802, 0x3823)
    else if i < 0x50 then Row(i, 0xc9cc, 0xd9ed, 0xe98e, 0xf9af, 0x8948, 0x9969, 0xa90a, 0xb92b)
    else if i < 0x58 then Row(i, 0x5af5, 0x4ad4, 0x7ab7, 0x6a96, 0x1a71, 0x0a50, 0x3a33, 0x2a12)
    else if i < 0x60 then Row(i, 0xdbfd, 0xcbdc, 0xfbbf, 0xeb9e, 0x9b79, 0x8b58, 0xbb3b, 0xab1a)
    else if i < 0x68 then Row(i, 0x6ca6, 0x7c87, 0x4ce4, 0x5cc5, 0x2c22, 0x3c03, 0x0c60, 0x1c41)
    else if i < 0x70 then Row(i, 0xedae, 0xfd8f, 0xcdec, 0xddcd, 0xad2a, 0xbd0b, 0x8d68, 0x9d49)
    else if i < 0x78 then Row(i, 0x7e97, 0x6eb6, 0x5ed5, 0x4ef4, 0x3e13, 0x2e32, 0x1e51, 0x0e70)
    else if i < 0x80 then Row(i, 0xff9f, 0xefbe, 0xdfdd, 0xcffc, 0xbf1b, 0xaf3a, 0x9f59, 0x8f78)
    else if i < 0x88 then Row(i, 0x9188, 0x81a9, 0xb1ca, 0xa1eb, 0xd10c, 0xc12d, 0xf14e, 0xe16f)
    else if i < 0x90 then Row(i, 0x1080, 0x00a1, 0x30c2, 0x20e3, 0x5004, 0x4025, 0x7046, 0x6067)
    else if i < 0x98 then Row(i, 0x83b9, 0x9398, 0xa3fb, 0xb3da, 0xc33d, 0xd31c, 0xe37f, 0xf35e)
    else if i < 0xa0 then Row(i, 0x02b1, 0x1290, 0x22f3, 0x32d2, 0x4235, 0x5214, 0x6277, 0x7256)
    else if i < 0xa8 then Row(i, 0xb5ea, 0xa5cb, 0x95a8, 0x8589, 0xf56e, 0xe54f, 0xd52c, 0xc50d)
    else if i < 0xb0 then Row(i, 0x34e2, 0x24c3, 0x14a0, 0x0481, 0x7466, 0x6447, 0x5424, 0x4405)
    else if i < 0xb8 then Row(i, 0xa7db, 0xb7fa, 0x8799, 0x97b8, 0xe75f, 0xf77e, 0xc71d, 0xd73c)
    else if i < 0xc0 then Row(i, 0x26d3, 0x36f2, 0x0691, 0x16b0, 0x6657, 0x7676, 0x4615, 0x5634)
    else if i < 0xc8 then Row(i, 0xd94c, 0xc96d, 0xf90e, 0xe92f, 0x99c8, 0x89e9, 0xb98a, 0xa9ab)
    else if i < 0xd0 then Row(i, 0x5844, 0x4865, 0x7806, 0x6827, 0x18c0, 0x08e1, 0x3882, 0x28a3)
    else if i < 0xd8 then Row(i, 0xcb7d, 0xdb5c, 0xeb3f, 0xfb1e, 0x8bf9, 0x9bd8, 0xabbb, 0xbb9a)
    else if i < 0xe0 then Row(i, 0x4a75, 0x5a54, 0x6a37, 0x7a16, 0x0af1, 0x1ad0, 0x2ab3, 0x3a92)
    else if i < 0xe8 then Row(i, 0xfd2e, 0xed0f, 0xdd6c, 0xcd4d, 0xbdaa, 0xad8b, 0x9de8, 0x8dc9)
    else if i < 0xf0 then Row(i, 0x7c26, 0x6c07, 0x5c64, 0x4c45, 0x3ca2, 0x2c83, 0x1ce0, 0x0cc1)
    else if i < 0xf8 then Row(i, 0xef1f, 0xff3e, 0xcf5d, 0xdf7c, 0xaf9b, 0xbfba, 0x8fd9, 0x9ff8)
    else Row(i, 0x6e17, 0x7e36, 0x4e55, 0x5e74, 0x2e93, 0x3eb2, 0x0ed1, 0x1ef0)
  }

  lemma CcittTableEntries(i: bv8)
    ensures CcittTable(i) == LeftEntry(0x1021, 0x8000, 0xffff, (i as bv32) << 8)
  {
  }

  lemma CcittTableCorrect(i: bv8)
    ensures CcittTable(i) == Step8(Ccitt, Align(Ccitt, i))
  {
    CcittTableEntries(i);
    LeftEntryClocks(Ccitt, Align(Ccitt, i));
  }

  function ZipTable(i: bv8): bv32 {
    if i < 0x08 then Row(i, 0x00000000, 0x77073096, 0xee0e612c, 0x990951ba,
                         0x076dc419, 0x706af48f, 0xe963a535, 0x9e6495a3)
    else if i < 0x10 then Row(i, 0x0edb8832, 0x79dcb8a4, 0xe0d5e91e, 0x97d2d988,
                              0x09b64c2b, 0x7eb17cbd, 0xe7b82d07, 0x90bf1d91)
    else if i < 0x18 then Row(i, 0x1db71064, 0x6ab020f2, 0xf3b97148, 0x84be41de,
                              0x1adad47d, 0x6ddde4eb, 0xf4d4b551, 0x83d385c7)
    else if i < 0x20 then Row(i, 0x136c9856, 0x646ba8c0, 0xfd62f97a, 0x8a65c9ec,
                              0x14015c4f, 0x63066cd9, 0xfa0f3d63, 0x8d080df5)
    else if i < 0x28 then Row(i, 0x3b6e20c8, 0x4c69105e, 0xd56041e4, 0xa2677172,
                              0x3c03e4d1, 0x4b04d447, 0xd20d85fd, 0xa50ab56b)
    else if i < 0x30 then Row(i, 0x35b5a8fa, 0x42b2986c, 0xdbbbc9d6, 0xacbcf940,
                              0x32d86ce3, 0x45df5c75, 0xdcd60dcf, 0xabd13d59)
    else if i < 0x38 then Row(i, 0x26d930ac, 0x51de003a, 0xc8d75180, 0xbfd06116,
                              0x21b4f4b5, 0x56b3c423, 0xcfba9599, 0xb8bda50f)
    else if i < 0x40 then Row(i, 0x2802b89e, 0x5f058808, 0xc60cd9b2, 0xb10be924,
                              0x2f6f7c87, 0x58684c11, 0xc1611dab, 0xb6662d3d)
    else if i < 0x48 then Row(i, 0x76dc4190, 0x01db7106, 0x98d220bc, 0xefd5102a,
                              0x71b18589, 0x06b6b51f, 0x9fbfe4a5, 0xe8b8d433)
    else if i < 0x50 then Row(i, 0x7807c9a2, 0x0f00f934, 0x9609a88e, 0xe10e9818,
                              0x7f6a0dbb, 0x086d3d2d, 0x91646c97, 0xe6635c01)
    else if i < 0x58 then Row(i, 0x6b6b51f4, 0x1c6c6162, 0x856530d8, 0xf262004e,
                              0x6c0695ed, 0x1b01a57b, 0x8208f4c1, 0xf50fc457)
    else if i < 0x60 then Row(i, 0x65b0d9c6, 0x12b7e950, 0x8bbeb8ea, 0xfcb9887c,
                              0x62dd1ddf, 0x15da2d49, 0x8cd37cf3, 0xfbd44c65)
    else if i < 0x68 then Row(i, 0x4db26158, 0x3ab551ce, 0xa3bc0074, 0xd4bb30e2,
                              0x4adfa541, 0x3dd895d7, 0xa4d1c46d, 0xd3d6f4fb)
    else if i < 0x70 then Row(i, 0x4369e96a, 0x346ed9fc, 0xad678846, 0xda60b8d0,
                              0x44042d73, 0x33031de5, 0xaa0a4c5f, 0xdd0d7cc9)
    else if i < 0x78 then Row(i, 0x5005713c, 0x270241aa, 0xbe0b1010, 0xc90c2086,
                              0x5768b525, 0x206f85b3, 0xb966d409, 0xce61e49f)
    else if i < 0x80 then Row(i, 0x5edef90e, 0x29d9c998, 0xb0d09822, 0xc7d7a8b4,
                              0x59b33d17, 0x2eb40d81, 0xb7bd5c3b, 0xc0ba6cad)
    else if i < 0x88 then Row(i, 0xedb88320, 0x9abfb3b6, 0x03b6e20c, 0x74b1d29a,
                              0xead54739, 0x9dd277af, 0x04db2615, 0x73dc1683)
    else if i < 0x90 then Row(i, 0xe3630b12, 0x94643b84, 0x0d6d6a3e, 0x7a6a5aa8,
                              0xe40ecf0b, 0x9309ff9d, 0x0a00ae27, 0x7d079eb1)
    else if i < 0x98 then Row(i, 0xf00f9344, 0x8708a3d2, 0x1e01f268, 0x6906c2fe,
                              0xf762575d, 0x806567cb, 0x196c3671, 0x6e6b06e7)
    else if i < 0xa0 then Row(i, 0xfed41b76, 0x89d32be0, 0x10da7a5a, 0x67dd4acc,
                              0xf9b9df6f, 0x8ebeeff9, 0x17b7be43, 0x60b08ed5)
    else if i < 0xa8 then Row(i, 0xd6d6a3e8, 0xa1d1937e, 0x38d8c2c4, 0x4fdff252,
                              0xd1bb67f1, 0xa6bc5767, 0x3fb506dd, 0x48b2364b)
    else if i < 0xb0 then Row(i, 0xd80d2bda, 0xaf0a1b4c, 0x36034af6, 0x41047a60,
                              0xdf60efc3, 0xa867df55, 0x316e8eef, 0x4669be79)
    else if i < 0xb8 then Row(i, 0xcb61b38c, 0xbc66831a, 0x256fd2a0, 0x5268e236,
                              0xcc0c7795, 0xbb0b4703, 0x220216b9, 0x5505262f)
    else if i < 0xc0 then Row(i, 0xc5ba3bbe, 0xb2bd0b28, 0x2bb45a92, 0x5cb36a04,
                              0xc2d7ffa7, 0xb5d0cf31, 0x2cd99e8b, 0x5bdeae1d)
    else if i < 0xc8 then Row(i, 0x9b64c2b0, 0xec63f226, 0x756aa39c, 0x026d930a,
                              0x9c0906a9, 0xeb0e363f, 0x72076785, 0x05005713)
    else if i < 0xd0 then Row(i, 0x95bf4a82, 0xe2b87a14, 0x7bb12bae, 0x0cb61b38,
                              0x92d28e9b, 0xe5d5be0d, 0x7cdcefb7, 0x0bdbdf21)
    else if i < 0xd8 then Row(i, 0x86d3d2d4, 0xf1d4e242, 0x68ddb3f8, 0x1fda836e,
                              0x81be16cd, 0xf6b9265b, 0x6fb077e1, 0x18b74777)
    else if i < 0xe0 then Row(i, 0x88085ae6, 0xff0f6a70, 0x66063bca, 0x11010b5c,
                              0x8f659eff, 0xf862ae69, 0x616bffd3, 0x166ccf45)
    else if i < 0xe8 then Row(i, 0xa00ae278, 0xd70dd2ee, 0x4e048354, 0x3903b3c2,
                              0xa7672661, 0xd06016f7, 0x4969474d, 0x3e6e77db)
    else if i < 0xf0 then Row(i, 0xaed16a4a, 0xd9d65adc, 0x40df0b66, 0x37d83bf0,
                              0xa9bcae53, 0xdebb9ec5, 0x47b2cf7f, 0x30b5ffe9)
    else if i < 0xf8 then Row(i, 0xbdbdf21c, 0xcabac28a, 0x53b39330, 0x24b4a3a6,
                              0xbad03605, 0xcdd70693, 0x54de5729, 0x23d967bf)
    else Row(i, 0xb3667a2e, 0xc4614ab8, 0x5d681b02, 0x2a6f2b94,
             0xb40bbe37, 0xc30c8ea1, 0x5a05df1b, 0x2d02ef8d)
  }

  lemma ZipTableEntries(i: bv8)
    ensures ZipTable(i) == RightEntry(0xedb8_8320, 0xffff_ffff, i as bv32)
  {
  }

  lemma ZipTableCorrect(i: bv8)
    ensures ZipTable(i) == Step8(Zip, Align(Zip, i))
  {
    ZipTableEntries(i);
    RightEntryClocks(Zip, Align(Zip, i));
  }

  function Ccitt32Table(i: bv8): bv32 {
    if i < 0x08 then Row(i, 0x00000000, 0x04c11db7, 0x09823b6e, 0x0d4326d9,
                         0x130476dc, 0x17c56b6b, 0x1a864db2, 0x1e475005)
    else if i < 0x10 then Row(i, 0x2608edb8, 0x22c9f00f, 0x2f8ad6d6, 0x2b4bcb61,
                              0x350c9b64, 0x31cd86d3, 0x3c8ea00a, 0x384fbdbd)
    else if i < 0x18 then Row(i, 0x4c11db70, 0x48d0c6c7, 0x4593e01e, 0x4152fda9,
                              0x5f15adac, 0x5bd4b01b, 0x569796c2, 0x52568b75)
    else if i < 0x20 then Row(i, 0x6a1936c8, 0x6ed82b7f, 0x639b0da6, 0x675a1011,
                              0x791d4014, 0x7ddc5da3, 0x709f7b7a, 0x745e66cd)
    else if i < 0x28 then Row(i, 0x9823b6e0, 0x9ce2ab57, 0x91a18d8e, 0x95609039,
                              0x8b27c03c, 0x8fe6dd8b, 0x82a5fb52, 0x8664e6e5)
    else if i < 0x30 then Row(i, 0xbe2b5b58, 0xbaea46ef, 0xb7a96036, 0xb3687d81,
                              0xad2f2d84, 0xa9ee3033, 0xa4ad16ea, 0xa06c0b5d)
    else if i < 0x38 then Row(i, 0xd4326d90, 0xd0f37027, 0xddb056fe, 0xd9714b49,
                              0xc7361b4c, 0xc3f706fb, 0xceb42022, 0xca753d95)
    else if i < 0x40 then Row(i, 0xf23a8028, 0xf6fb9d9f, 0xfbb8bb46, 0xff79a6f1,
                              0xe13ef6f4, 0xe5ffeb43, 0xe8bccd9a, 0xec7dd02d)
    else if i < 0x48 then Row(i, 0x34867077, 0x30476dc0, 0x3d044b19, 0x39c556ae,
                              0x278206ab, 0x23431b1c, 0x2e003dc5, 0x2ac12072)
    else if i < 0x50 then Row(i, 0x128e9dcf, 0x164f8078, 0x1b0ca6a1, 0x1fcdbb16,
                              0x018aeb13, 0x054bf6a4, 0x0808d07d, 0x0cc9cdca)
    else if i < 0x58 then Row(i, 0x7897ab07, 0x7c56b6b0, 0x71159069, 0x75d48dde,
                              0x6b93dddb, 0x6f52c06c, 0x6211e6b5, 0x66d0fb02)
    else if i < 0x60 then Row(i, 0x5e9f46bf, 0x5a5e5b08, 0x571d7dd1, 0x53dc6066,
                              0x4d9b3063, 0x495a2dd4, 0x44190b0d, 0x40d816ba)
    else if i < 0x68 then Row(i, 0xaca5c697, 0xa864db20, 0xa527fdf9, 0xa1e6e04e,
                              0xbfa1b04b, 0xbb60adfc, 0xb6238b25, 0xb2e29692)
    else if i < 0x70 then Row(i, 0x8aad2b2f, 0x8e6c3698, 0x832f1041, 0x87ee0df6,
                              0x99a95df3, 0x9d684044, 0x902b669d, 0x94ea7b2a)
    else if i < 0x78 then Row(i, 0xe0b41de7, 0xe4750050, 0xe9362689, 0xedf73b3e,
                              0xf3b06b3b, 0xf771768c, 0xfa325055, 0xfef34de2)
    else if i < 0x80 then Row(i, 0xc6bcf05f, 0xc27dede8, 0xcf3ecb31, 0xcbffd686,
                              0xd5b88683, 0xd1799b34, 0xdc3abded, 0xd8fba05a)
    else if i < 0x88 then Row(i, 0x690ce0ee, 0x6dcdfd59, 0x608edb80, 0x644fc637,
                              0x7a089632, 0x7ec98b85, 0x738aad5c, 0x774bb0eb)
    else if i < 0x90 then Row(i, 0x4f040d56, 0x4bc510e1, 0x46863638, 0x42472b8f,
                              0x5c007b8a, 0x58c1663d, 0x558240e4, 0x51435d53)
    else if i < 0x98 then Row(i, 0x251d3b9e, 0x21dc2629, 0x2c9f00f0, 0x285e1d47,
                              0x36194d42, 0x32d850f5, 0x3f9b762c, 0x3b5a6b9b)
    else if i < 0xa0 then Row(i, 0x0315d626, 0x07d4cb91, 0x0a97ed48, 0x0e56f0ff,
                              0x1011a0fa, 0x14d0bd4d, 0x19939b94, 0x1d528623)
    else if i < 0xa8 then Row(i, 0xf12f560e, 0xf5ee4bb9, 0xf8ad6d60, 0xfc6c70d7,
                              0xe22b20d2, 0xe6ea3d65, 0xeba91bbc, 0xef68060b)
    else if i < 0xb0 then Row(i, 0xd727bbb6, 0xd3e6a601, 0xdea580d8, 0xda649d6f,
                              0xc423cd6a, 0xc0e2d0dd, 0xcda1f604, 0xc960ebb3)
    else if i < 0xb8 then Row(i, 0xbd3e8d7e, 0xb9ff90c9, 0xb4bcb610, 0xb07daba7,
                              0xae3afba2, 0xaafbe615, 0xa7b8c0cc, 0xa379dd7b)
    else if i < 0xc0 then Row(i, 0x9b3660c6, 0x9ff77d71, 0x92b45ba8, 0x9675461f,
                              0x8832161a, 0x8cf30bad, 0x81b02d74, 0x857130c3)
    else if i < 0xc8 then Row(i, 0x5d8a9099, 0x594b8d2e, 0x5408abf7, 0x50c9b640,
                              0x4e8ee645, 0x4a4ffbf2, 0x470cdd2b, 0x43cdc09c)
    else if i < 0xd0 then Row(i, 0x7b827d21, 0x7f436096, 0x7200464f, 0x76c15bf8,
                              0x68860bfd, 0x6c47164a, 0x61043093, 0x65c52d24)
    else if i < 0xd8 then Row(i, 0x119b4be9, 0x155a565e, 0x18197087, 0x1cd86d30,
                              0x029f3d35, 0x065e2082, 0x0b1d065b, 0x0fdc1bec)
    else if i < 0xe0 then Row(i, 0x3793a651, 0x3352bbe6, 0x3e119d3f, 0x3ad08088,
                              0x2497d08d, 0x2056cd3a, 0x2d15ebe3, 0x29d4f654)
    else if i < 0xe8 then Row(i, 0xc5a92679, 0xc1683bce, 0xcc2b1d17, 0xc8ea00a0,
                              0xd6ad50a5, 0xd26c4d12, 0xdf2f6bcb, 0xdbee767c)
    else if i < 0xf0 then Row(i, 0xe3a1cbc1, 0xe760d676, 0xea23f0af, 0xeee2ed18,
                              0xf0a5bd1d, 0xf464a0aa, 0xf9278673, 0xfde69bc4)
    else if i < 0xf8 then Row(i, 0x89b8fd09, 0x8d79e0be, 0x803ac667, 0x84fbdbd0,
                              0x9abc8bd5, 0x9e7d9662, 0x933eb0bb, 0x97ffad0c)
    else Row(i, 0xafb010b1, 0xab710d06, 0xa6322bdf, 0xa2f33668,
             0xbcb4666d, 0xb8757bda, 0xb5365d03, 0xb1f740b4)
  }

  lemma Ccitt32TableEntries(i: bv8)
    ensures Ccitt32Table(i) == LeftEntry(0x04c1_1db7, 0x8000_0000, 0xffff_ffff, (i as bv32) << 24)
  {
  }

  lemma Ccitt32TableCorrect(i: bv8)
    ensures Ccitt32Table(i) == Step8(Ccitt32, Align(Ccitt32, i))
  {
    Ccitt32TableEntries(i);
    LeftEntryClocks(Ccitt32, Align(Ccitt32, i));
  }
}
