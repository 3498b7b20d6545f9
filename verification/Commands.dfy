/** The texts of the commands that the host sends, as the GDB manual and the reset drivers spell them. */
module Commands {
  import opened Bits
  import opened Rsp

  lemma HexBytesConcat(a: bytes, b: bytes)
    ensures HexBytes(a + b) == HexBytes(a) + HexBytes(b)
  {
    hide HexDigit;
  }

  lemma TextConcat(s: string, t: string)
    ensures Text(s + t) == Text(s) + Text(t)
  {
  }

  lemma ResetHaltWord()
    ensures Text("72657365742068616c74") == HexBytes(Text("reset halt"))
  {
  }

  lemma ResetHaltText()
    ensures Text("qRcmd,72657365742068616c74") == Text("qRcmd,") + HexBytes(Text("reset halt"))
  {
    hide Text, HexBytes;
    ResetHaltWord();
    TextConcat("qRcmd,", "72657365742068616c74");
    assert "qRcmd," + "72657365742068616c74" == "qRcmd,72657365742068616c74";
  }

  lemma SystemWord()
    ensures Text("73797374656d") == HexBytes(Text("system"))
  {
  }

  lemma ResetWord()
    ensures Text("5f7265736574") == HexBytes(Text("_reset"))
  {
  }

  lemma SystemResetText()
    ensures Text("qRcmd,73797374656d5f7265736574") == Text("qRcmd,") + HexBytes(Text("system_reset"))
  {
    hide Text, HexBytes;
    SystemWord();
    ResetWord();
    TextConcat("system", "_reset");
    HexBytesConcat(Text("system"), Text("_reset"));
    TextConcat("73797374656d", "5f7265736574");
    TextConcat("qRcmd,", "73797374656d5f7265736574");
    assert "system" + "_reset" == "system_reset";
    assert "73797374656d" + "5f7265736574" == "73797374656d5f7265736574";
    assert "qRcmd," + "73797374656d5f7265736574" == "qRcmd,73797374656d5f7265736574";
  }

  lemma ContinueText()
    ensures Text("vCont;c") == [118, 67, 111, 110, 116, 59, 99]
    ensures Text("$vCont;c#a8") == [36, 118, 67, 111, 110, 116, 59, 99, 35, 97, 56]
  {
  }

  lemma ContinueFrame()
    ensures Frame(Text("vCont;c")) == Text("$vCont;c#a8")
  {
    hide Escape, Checksum, Text;
    ContinueText();
    ContinueSum();
    var p: bytes := [118, 67, 111, 110, 116, 59, 99];
    EscapePlain(p);
  }

  lemma ContinueSum()
    ensures Checksum([118, 67, 111, 110, 116, 59, 99]) == 0xa8
  {
    hide Total;
    NoSum();
    TotalSnoc([], 118);
    TotalSnoc([118], 67);
    TotalSnoc([118, 67], 111);
    TotalSnoc([118, 67, 111], 110);
    TotalSnoc([118, 67, 111, 110], 116);
    TotalSnoc([118, 67, 111, 110, 116], 59);
    TotalSnoc([118, 67, 111, 110, 116, 59], 99);
    assert [] + [118] == [118];
    assert [118] + [67] == [118, 67];
    assert [118, 67] + [111] == [118, 67, 111];
    assert [118, 67, 111] + [110] == [118, 67, 111, 110];
    assert [118, 67, 111, 110] + [116] == [118, 67, 111, 110, 116];
    assert [118, 67, 111, 110, 116] + [59] == [118, 67, 111, 110, 116, 59];
    assert [118, 67, 111, 110, 116, 59] + [99] == [118, 67, 111, 110, 116, 59, 99];
  }

  lemma NoSum()
    ensures Total([]) == 0
  {
  }
}
